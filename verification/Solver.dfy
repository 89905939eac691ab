/** The conflict-driven clause-learning solver. */
module CdclSolver {
  import opened Cnf
  import opened Trail
  import opened Watch
  import opened Database
  import opened Analysis
  import opened Clauses
  import opened Progress
  import opened Derivation
  import opened ImplicationGraph

  /** What became of a visited watcher: kept in its list, moved to another one, or kept with a
      falsified clause. */
  datatype Visit = Kept(w: Watcher) | Moved | Falsified(w: Watcher)

  /** What to do about the assumptions next: decide one, give up, or nothing. */
  datatype Placement = Decision(l: Lit) | Contradicted | AllPlaced

  /** What ends a turn of the search loop: a conflict at level 0 or above, a used-up budget, a full trail,
      assumptions that cannot hold, or a decision. */
  datatype Event = AtTop | Backjumped | GaveUp | FullTrail | Refused | Decided

  class Solver {
    var ca: map<CRef, Clause>
    var nextRef: CRef
    var clauses: seq<CRef>
    var learnts: seq<CRef>
    var assumptions: seq<Lit>
    var model: seq<bool>
    var ok: bool
    var reallyUnsat: bool
    var watches: Watches
    var assigns: seq<LBool>
    var vardata: seq<VarData>
    var trail: seq<Lit>
    var trailLim: seq<nat>
    var qhead: nat
    var seen: seq<bool>
    var analyzeToclear: seq<Lit>
    ghost var pos: seq<nat>
    ghost var floor: nat
    ghost var theory: Theory

    ghost function Snap(): State
      reads this
    {
      State(assigns, vardata, trail, trailLim, pos, floor)
    }

    function Value(l: Lit): LBool
      requires l.v < |assigns|
      reads this
    {
      ValueOf(assigns[l.v], l.neg)
    }

    /** The literal is in range and has no value. */
    predicate Open(l: Lit)
      reads this
    {
      l.v < |assigns| && assigns[l.v] == LUndef
    }

    function Level(v: nat): nat
      requires v < |vardata|
      reads this
    {
      vardata[v].level
    }

    function DecisionLevel(): nat
      reads this
    {
      |trailLim|
    }

    /** The part of the state that unit propagation works on. */
    ghost predicate Running()
      reads this
    {
      && |assigns| == |vardata| == |pos|
      && Wf(Snap())
      && ReasonsOk(ca, Snap())
      && ClausesOk(ca, |assigns|)
      && qhead <= |trail|
      && (|trailLim| > 0 ==> trailLim[|trailLim| - 1] <= qhead)
      && Sound(theory, ca, Snap())
    }

    method UncheckedEnqueue(p: Lit, from: Option<CRef>)
      requires |assigns| == |vardata| == |pos| && p.v < |assigns| && assigns[p.v] == LUndef
      modifies this`assigns, this`vardata, this`trail, this`pos
      ensures Snap() == Enq(old(Snap()), p, from)
    {
      assigns := assigns[p.v := if p.neg then LFalse else LTrue];
      vardata := vardata[p.v := VarData(from, DecisionLevel())];
      pos := pos[p.v := |trail|];
      trail := trail + [p];
    }

    method NewDecisionLevel()
      modifies this`trailLim
      ensures Snap() == NewLevel(old(Snap()))
    {
      trailLim := trailLim + [|trail|];
    }

    /** Index of a literal from position 2 on that is not false, or the length of the clause. */
    method FindWatch(c: Clause) returns (k: nat)
      requires |c| >= 2 && forall j :: 0 <= j < |c| ==> c[j].v < |assigns|
      ensures 2 <= k <= |c|
      ensures k < |c| ==> !IsFalse(Snap(), c[k])
      ensures k == |c| ==> forall j :: 2 <= j < |c| ==> IsFalse(Snap(), c[j])
    {
      k := 2;
      while k < |c| && Value(c[k]) == LFalse
        invariant 2 <= k <= |c|
        invariant forall j :: 2 <= j < k ==> IsFalse(Snap(), c[j])
      {
        k := k + 1;
      }
    }

    /** State while the watchers of `p` are visited: `kept` and `rest` make up the list of `p`,
        and the watchers from `rest` are still to be seen. */
    ghost predicate Visiting(p: Lit, list: seq<Watcher>, rest: seq<Watcher>)
      reads this
    {
      && Running() && p.v < |assigns| && p in watches && qhead > 0
      && WatchesOk(ca, watches[p := list], |assigns|)
      && IsTrue(Snap(), p) && pos[p.v] + 1 == qhead && Level(p.v) == DecisionLevel()
      && (|trailLim| > 0 ==> trailLim[|trailLim| - 1] < qhead)
      && Propagated(ca, Snap(), qhead, p, rest)
    }

    /** Makes the negation of `p` the second watch of clause `cr`. */
    method FalseLitSecond(p: Lit, cr: CRef, ghost list: seq<Watcher>, ghost rest: seq<Watcher>)
      requires Visiting(p, list, rest) && cr in ca && (ca[cr][0] == p.Not() || ca[cr][1] == p.Not())
      modifies this`ca
      ensures Visiting(p, list, rest) && cr in ca && ca[cr][1] == p.Not() && ca[cr][0] != p.Not()
      ensures SameClauses(old(ca), ca)
    {
      hide ReasonsOk, ClausesOk, WatchesOk, Propagated, PropagatedTo, Sound, Wf, SameClauses, Extends;
      var falseLit := p.Not();
      var c := ca[cr];
      ClauseFacts(ca, |assigns|, cr);
      SameClausesRefl(ca);
      if c[0] == falseLit {
        SwapReorders(c, 0, 1);
        SwapWatches(ca, Snap(), watches[p := list], |assigns|, cr, qhead, p, rest);
        ReorderOne(ca, cr, Swapped(c, 0, 1), |assigns|);
        ReorderReasons(ca, Snap(), cr, Swapped(c, 0, 1));
        SameClausesSound(theory, ca, ca[cr := Swapped(c, 0, 1)], Snap());
        ca := ca[cr := c[0 := c[1]][1 := falseLit]];
      }
    }

    /** Moves the second watch of clause `w.cref` to its literal `k`. */
    method MoveWatch(p: Lit, w: Watcher, k: nat, ghost kept: seq<Watcher>, ghost w0: Watcher, ghost rest: seq<Watcher>)
      requires Visiting(p, kept + [w0] + rest, [w0] + rest) && w.cref in ca && w0.cref == w.cref && w.blocker in ca[w.cref]
      requires ca[w.cref][1] == p.Not() && ca[w.cref][0] != p.Not() && !IsTrue(Snap(), ca[w.cref][0])
      requires 2 <= k < |ca[w.cref]| && !IsFalse(Snap(), ca[w.cref][k])
      modifies this`ca, this`watches
      ensures Visiting(p, kept + rest, rest)
      ensures SameClauses(old(ca), ca) && watches.Keys == old(watches.Keys)
    {
      hide ReasonsOk, ClausesOk, WatchesOk, Propagated, PropagatedTo, Sound, Wf, SameClauses, Extends;
      var cr := w.cref;
      var c := ca[cr];
      ClauseFacts(ca, |assigns|, cr);
      var d := c[1 := c[k]][k := p.Not()];
      assert d == Swapped(c, 1, k);
      SwapReorders(c, 1, k);
      ghost var W := watches[p := kept + [w0] + rest];
      MoveWatcher(ca, W, |assigns|, p, kept, w0, w, rest, k);
      MovePropagated(ca, Snap(), qhead, p, w0, rest, k);
      ReorderOne(ca, cr, d, |assigns|);
      ReorderReasons(ca, Snap(), cr, d);
      SameClausesSound(theory, ca, ca[cr := d], Snap());
      var r := d[1].Not();
      assert W[p := kept + rest][r := W[r] + [w]] == watches[r := watches[r] + [w]][p := kept + rest];
      ca := ca[cr := d];
      watches := watches[r := watches[r] + [w]];
    }

    /** The other watch `first` of clause `cr` is the only literal left: enqueue it. */
    method EnqueueImplied(p: Lit, first: Lit, cr: CRef, ghost kept: seq<Watcher>, ghost w0: Watcher, ghost w: Watcher, ghost rest: seq<Watcher>)
      requires Visiting(p, kept + [w0] + rest, [w0] + rest) && cr in ca && w0.cref == w.cref == cr && w.blocker in ca[cr]
      requires ca[cr][0] == first && assigns[first.v] == LUndef
      requires forall j :: 1 <= j < |ca[cr]| ==> IsFalse(Snap(), ca[cr][j])
      modifies this`assigns, this`vardata, this`trail, this`pos
      ensures Visiting(p, kept + [w] + rest, rest)
      ensures Extends(old(Snap()), Snap())
    {
      hide ReasonsOk, ClausesOk, WatchesOk, Propagated, PropagatedTo, Sound, Wf, SameClauses, Extends, Entails, DistinctVars, Lits;
      ghost var t := Snap();
      ClauseFacts(ca, |assigns|, cr);
      var from: Option<CRef> := Some(cr);
      EnqWf(t, first, from);
      EnqReasons(ca, t, first, from);
      EnqExtends(t, first, from);
      EnqPropagated(ca, t, first, from, qhead, p, [w0] + rest);
      if |trailLim| == 0 {
        forall k | 0 <= k < |ca[cr]| ensures ca[cr][k] == first || TopFalse(t, ca[cr][k]) {
          if k > 0 { LevelBound(t, ca[cr][k]); }
        }
        UnitEntailed(theory, ca, t, cr, first);
      }
      EnqSound(theory, ca, t, first, from);
      UncheckedEnqueue(first, from);
      assert IsTrue(Snap(), ca[cr][0]) && vardata[ca[cr][0].v].level <= vardata[p.v].level;
      Visited(ca, Snap(), qhead, p, w0, rest);
      KeepWatcher(ca, watches[p := kept + [w0] + rest], |assigns|, p, kept, w0, w, rest);
      assert watches[p := kept + [w0] + rest][p := kept + [w] + rest] == watches[p := kept + [w] + rest];
    }

    /** One watcher of the newly true literal `p`. */
    method VisitWatcher(p: Lit, w0: Watcher, ghost kept: seq<Watcher>, ghost rest: seq<Watcher>) returns (v: Visit)
      requires Visiting(p, kept + [w0] + rest, [w0] + rest)
      modifies this`ca, this`watches, this`assigns, this`vardata, this`trail, this`pos
      ensures SameClauses(old(ca), ca) && Extends(old(Snap()), Snap()) && watches.Keys == old(watches.Keys)
      ensures v.Kept? ==> Visiting(p, kept + [v.w] + rest, rest)
      ensures v.Moved? ==> Visiting(p, kept + rest, rest)
      ensures v.Falsified? ==>
        (&& Visiting(p, kept + [v.w] + rest, [w0] + rest) && v.w.cref in ca && p.Not() in ca[v.w.cref]
         && forall k :: 0 <= k < |ca[v.w.cref]| ==> IsFalse(Snap(), ca[v.w.cref][k]))
    {
      hide ReasonsOk, ClausesOk, WatchesOk, Propagated, PropagatedTo, Sound, Wf, SameClauses, Extends;
      ghost var list := kept + [w0] + rest;
      var cr := w0.cref;
      WatcherFacts(ca, watches[p := list], |assigns|, p, |kept|);
      SameClausesRefl(ca);
      ExtendsRefl(Snap());
      ClauseFacts(ca, |assigns|, cr);
      var blocker := w0.blocker;
      if Value(blocker) == LTrue {
        assert SatisfiedBy(Snap(), ca[cr], Level(p.v)) by { SatisfiedNow(ca[cr], blocker); }
        Visited(ca, Snap(), qhead, p, w0, rest);
        return Kept(w0);
      }
      FalseLitSecond(p, cr, list, [w0] + rest);
      ghost var ca1 := ca;
      v := SettleWatcher(p, w0, kept, rest);
      SameClausesTrans(old(ca), ca1, ca);
    }

    /** The same, for a clause whose second watch is the negation of `p`. */
    method SettleWatcher(p: Lit, w0: Watcher, ghost kept: seq<Watcher>, ghost rest: seq<Watcher>) returns (v: Visit)
      requires Visiting(p, kept + [w0] + rest, [w0] + rest)
      requires w0.cref in ca && ca[w0.cref][1] == p.Not() && ca[w0.cref][0] != p.Not()
      requires w0.blocker.v < |assigns| && Value(w0.blocker) != LTrue
      modifies this`ca, this`watches, this`assigns, this`vardata, this`trail, this`pos
      ensures SameClauses(old(ca), ca) && Extends(old(Snap()), Snap()) && watches.Keys == old(watches.Keys)
      ensures v.Kept? ==> Visiting(p, kept + [v.w] + rest, rest)
      ensures v.Moved? ==> Visiting(p, kept + rest, rest)
      ensures v.Falsified? ==>
        (&& Visiting(p, kept + [v.w] + rest, [w0] + rest) && v.w.cref in ca && p.Not() in ca[v.w.cref]
         && forall k :: 0 <= k < |ca[v.w.cref]| ==> IsFalse(Snap(), ca[v.w.cref][k]))
    {
      hide ReasonsOk, ClausesOk, WatchesOk, Propagated, PropagatedTo, Sound, Wf, SameClauses, Extends;
      ghost var list := kept + [w0] + rest;
      var cr := w0.cref;
      var blocker := w0.blocker;
      SameClausesRefl(ca);
      ExtendsRefl(Snap());
      var c := ca[cr];
      ClauseFacts(ca, |assigns|, cr);
      var first := c[0];
      var w := Watcher(cr, first);
      ghost var W := watches[p := list];
      assert first in c;
      if first != blocker && Value(first) == LTrue {
        SatisfiedNow(c, first);
        Visited(ca, Snap(), qhead, p, w0, rest);
        KeepWatcher(ca, W, |assigns|, p, kept, w0, w, rest);
        assert W[p := kept + [w] + rest] == watches[p := kept + [w] + rest];
        return Kept(w);
      }
      var k := FindWatch(c);
      if k < |c| {
        MoveWatch(p, w, k, kept, w0, rest);
        return Moved;
      }
      if Value(first) == LFalse {
        KeepWatcher(ca, W, |assigns|, p, kept, w0, w, rest);
        assert W[p := kept + [w] + rest] == watches[p := kept + [w] + rest];
        assert c[1] in c;
        return Falsified(w);
      }
      EnqueueImplied(p, first, cr, kept, w0, w, rest);
      return Kept(w);
    }

    lemma SatisfiedNow(c: Clause, l: Lit)
      requires Wf(Snap()) && l in c && IsTrue(Snap(), l)
      ensures SatisfiedBy(Snap(), c, DecisionLevel())
    {
      LevelBound(Snap(), l);
      var k :| 0 <= k < |c| && c[k] == l;
    }

    /** Leaves the loop over the watchers after a conflict: the rest of the list is kept as it is. */
    method StopAt(p: Lit, list: seq<Watcher>, ghost rest: seq<Watcher>)
      requires Visiting(p, list, rest)
      modifies this`watches, this`qhead
      ensures Running() && WatchesOk(ca, watches, |assigns|) && watches.Keys == old(watches.Keys)
      ensures qhead == |trail| && IsTrue(Snap(), p) && Level(p.v) == DecisionLevel() && PropagatedTo(ca, Snap(), old(qhead) - 1)
    {
      hide ReasonsOk, ClausesOk, WatchesOk, Propagated, PropagatedTo, Sound, Wf;
      PropagatedBelow(ca, Snap(), qhead, qhead - 1, p, rest);
      qhead := |trail|;
      watches := watches[p := list];
    }

    /** Visits the watchers of the newly true literal `p`. */
    method PropagateLit(p: Lit) returns (confl: Option<CRef>)
      requires p in watches && Visiting(p, watches[p], watches[p])
      modifies this`ca, this`watches, this`assigns, this`vardata, this`trail, this`pos, this`qhead
      ensures Running() && WatchesOk(ca, watches, |assigns|)
      ensures SameClauses(old(ca), ca) && Extends(old(Snap()), Snap()) && watches.Keys == old(watches.Keys)
      ensures confl.None? ==> qhead == old(qhead) && PropagatedTo(ca, Snap(), qhead)
      ensures confl.Some? ==>
        (&& qhead == |trail| && confl.value in ca
         && (forall k :: 0 <= k < |ca[confl.value]| ==> IsFalse(Snap(), ca[confl.value][k]))
         && p.Not() in ca[confl.value] && IsTrue(Snap(), p) && Level(p.v) == DecisionLevel()
         && PropagatedTo(ca, Snap(), old(qhead) - 1))
    {
      hide ReasonsOk, ClausesOk, WatchesOk, Propagated, PropagatedTo, Sound, Wf, SameClauses, Extends;
      confl := None;
      var ws := watches[p];
      var i := 0;
      var kept: seq<Watcher> := [];
      assert kept + ws[i..] == ws;
      SameClausesRefl(ca);
      ExtendsRefl(Snap());
      while i < |ws|
        invariant 0 <= i <= |ws|
        invariant Visiting(p, kept + ws[i..], ws[i..]) && qhead == old(qhead)
        invariant SameClauses(old(ca), ca) && Extends(old(Snap()), Snap()) && watches.Keys == old(watches.Keys)
      {
        var w := ws[i];
        ghost var rest := ws[i + 1..];
        assert ws[i..] == [w] + rest;
        assert kept + ([w] + rest) == kept + [w] + rest;
        ghost var ca0, t0 := ca, Snap();
        var v := VisitWatcher(p, w, kept, rest);
        SameClausesTrans(old(ca), ca0, ca);
        ExtendsTrans(old(Snap()), t0, Snap());
        i := i + 1;
        match v
        case Kept(w') =>
          assert kept + [w'] + rest == (kept + [w']) + rest;
          kept := kept + [w'];
        case Moved =>
        case Falsified(w') =>
          confl := Some(w'.cref);
          StopAt(p, kept + [w'] + ws[i..], [w] + rest);
          return;
      }
      assert kept + ws[i..] == kept && ws[i..] == [];
      watches := watches[p := kept];
      NoExemption(ca, Snap(), qhead, p);
    }

    /** Clause `cr` is false under the trail, with a literal of the current level. */
    ghost predicate Conflict(cr: CRef)
      reads this
    {
      && |assigns| == |vardata| && cr in ca
      && (forall k :: 0 <= k < |ca[cr]| ==> IsFalse(Snap(), ca[cr][k]))
      && exists k :: 0 <= k < |ca[cr]| && Level(ca[cr][k].v) == DecisionLevel()
    }

    /** Dequeues one literal and visits its watchers. */
    method PropagateNext() returns (confl: Option<CRef>)
      requires Running() && WatchesOk(ca, watches, |assigns|) && PropagatedTo(ca, Snap(), qhead) && qhead < |trail|
      modifies this`ca, this`watches, this`assigns, this`vardata, this`trail, this`pos, this`qhead
      ensures Running() && WatchesOk(ca, watches, |assigns|)
      ensures SameClauses(old(ca), ca) && Extends(old(Snap()), Snap()) && watches.Keys == old(watches.Keys)
      ensures confl.None? ==> PropagatedTo(ca, Snap(), qhead) && qhead == old(qhead) + 1
      ensures confl.Some? ==> Conflict(confl.value) && qhead == |trail|
      ensures confl.Some? && DecisionLevel() > 0 ==> PropagatedTo(ca, Snap(), trailLim[DecisionLevel() - 1])
    {
      hide ReasonsOk, ClausesOk, WatchesOk, Propagated, PropagatedTo, Sound, Wf, SameClauses, Extends;
      var p := trail[qhead];
      StartLit(ca, Snap(), watches, |assigns|, qhead);
      TrailLit(Snap(), qhead);
      CurrentLevel(Snap(), p);
      ghost var q0, t0 := qhead, Snap();
      qhead := qhead + 1;
      assert watches[p := watches[p]] == watches;
      confl := PropagateLit(p);
      ExtendsFacts(t0, Snap());
      if confl.Some? {
        var k :| 0 <= k < |ca[confl.value]| && ca[confl.value][k] == p.Not();
        if DecisionLevel() > 0 { PropagatedDown(ca, Snap(), q0, trailLim[DecisionLevel() - 1]); }
      }
    }

    /** Propagates all enqueued literals. Without a conflict every clause is settled up to the end of
        the trail; a conflicting clause is false, and the levels below the current one are settled. */
    method Propagate() returns (confl: Option<CRef>)
      requires Running() && WatchesLazy(ca, watches, |assigns|) && PropagatedTo(ca, Snap(), qhead)
      modifies this`ca, this`watches, this`assigns, this`vardata, this`trail, this`pos, this`qhead
      ensures Running() && WatchesOk(ca, watches, |assigns|) && WatchesLazy(ca, watches, |assigns|) && qhead == |trail|
      ensures SameClauses(old(ca), ca) && Extends(old(Snap()), Snap())
      ensures confl.None? ==> PropagatedTo(ca, Snap(), |trail|)
      ensures confl.Some? ==> Conflict(confl.value)
      ensures confl.Some? && DecisionLevel() > 0 ==> PropagatedTo(ca, Snap(), trailLim[DecisionLevel() - 1])
      ensures old(qhead) == |old(trail)| ==> confl.None? && Snap() == old(Snap())
    {
      hide ReasonsOk, ClausesOk, WatchesOk, WatchesLazy, PropagatedTo, Sound, Wf, SameClauses, Extends, Conflict;
      confl := None;
      CleanRange(ca, watches, |assigns|);
      watches := CleanAll(ca, watches);
      SameClausesRefl(ca);
      ExtendsRefl(Snap());
      while qhead < |trail| && confl.None?
        invariant Running() && WatchesOk(ca, watches, |assigns|)
        invariant forall p :: p in watches ==> p.v < |assigns|
        invariant SameClauses(old(ca), ca) && Extends(old(Snap()), Snap())
        invariant confl.None? ==> PropagatedTo(ca, Snap(), qhead)
        invariant confl.Some? ==> Conflict(confl.value) && qhead == |trail|
        invariant confl.Some? && DecisionLevel() > 0 ==> PropagatedTo(ca, Snap(), trailLim[DecisionLevel() - 1])
        invariant old(qhead) == |old(trail)| ==> confl.None? && qhead == |trail| && Snap() == old(Snap())
        decreases |assigns| - qhead, confl.None?
      {
        ghost var ca0, t0 := ca, Snap();
        TrailShort(Snap());
        confl := PropagateNext();
        SameClausesTrans(old(ca), ca0, ca);
        ExtendsFacts(t0, Snap());
        ExtendsTrans(old(Snap()), t0, Snap());
        TrailShort(Snap());
      }
      CleanIsLazy(ca, watches, |assigns|);
    }

    // ----- conflict analysis -----

    /** Adds the literals of `c` from index `start` on to the disjunction under construction. */
    method MarkLiterals(c: Clause, start: nat, pathC0: nat, out0: seq<Lit>, ghost cur0: set<nat>, ghost low0: set<nat>, ghost bound: int)
      returns (pathC: nat, out: seq<Lit>, ghost cur: set<nat>, ghost low: set<nat>)
      requires Wf(Snap()) && DecisionLevel() > 0 && start <= |c|
      requires forall k :: start <= k < |c| ==> IsFalse(Snap(), c[k]) && pos[c[k].v] < bound
      requires Frontier(Snap(), seen, cur0, low0) && Lists(Snap(), out0, low0) && pathC0 == |cur0| && AllBefore(Snap(), cur0, bound)
      modifies this`seen
      ensures Frontier(Snap(), seen, cur, low) && Lists(Snap(), out, low) && pathC == |cur| && AllBefore(Snap(), cur, bound)
      ensures cur0 <= cur && low0 <= low && CoveredFrom(Snap(), c, start, cur + low) && MarkedFrom(c, start, cur0 + low0, cur + low)
    {
      hide Wf, Frontier, Lists, MarkedFrom, CoveredFrom;
      NothingRead(Snap(), c, start, cur0, low0);
      pathC, out, cur, low := pathC0, out0, cur0, low0;
      var j := start;
      while j < |c|
        invariant start <= j <= |c|
        invariant Frontier(Snap(), seen, cur, low) && Lists(Snap(), out, low) && pathC == |cur| && AllBefore(Snap(), cur, bound)
        invariant cur0 <= cur && low0 <= low && CoveredFrom(Snap(), c[..j], start, cur + low)
        invariant MarkedFrom(c, start, cur0 + low0, cur + low)
      {
        var q := c[j];
        ghost var before := cur + low;
        FrontierFacts(Snap(), seen, cur, low, q.v);
        LevelBound(Snap(), q);
        if !seen[q.v] && Level(q.v) > 0 {
          MarkedFromMore(c, start, cur0 + low0, cur, low, j);
          if Level(q.v) >= DecisionLevel() {
            MarkCur(Snap(), seen, cur, low, q.v);
            cur := cur + {q.v};
            pathC := pathC + 1;
          } else {
            MarkLow(Snap(), seen, cur, low, out, q);
            low := low + {q.v};
            out := out + [q];
          }
          seen := seen[q.v := true];
        }
        CoveredStep(Snap(), c, start, j, before, cur + low);
        j := j + 1;
      }
      assert c[..j] == c;
    }

    /** Index of the last marked literal of the trail at or below `from`. */
    method LastMarked(from: nat, ghost cur: set<nat>, ghost low: set<nat>) returns (index: nat)
      requires Wf(Snap()) && DecisionLevel() > 0 && from < |trail|
      requires Frontier(Snap(), seen, cur, low) && |cur| > 0 && AllBefore(Snap(), cur, from + 1)
      ensures index <= from && trail[index].v in cur && AllBefore(Snap(), cur - {trail[index].v}, index)
    {
      index := from;
      ghost var u: nat :| u in cur;
      while !seen[trail[index].v]
        decreases index
        invariant index <= from && AllBefore(Snap(), cur, index + 1)
      {
        assert pos[u] <= index;
        assert forall v :: v in cur ==> pos[v] != index by {
          forall v | v in cur ensures pos[v] != index { assert trail[pos[v]].v == v; }
        }
        index := index - 1;
      }
      FirstMarkedIsCurrent(Snap(), seen, cur, low, index);
    }

    lemma ConflictFacts(cr: CRef)
      requires Wf(Snap()) && Conflict(cr)
      ensures cr in ca && forall k :: 0 <= k < |ca[cr]| ==> IsFalse(Snap(), ca[cr][k]) && pos[ca[cr][k].v] < |trail|
      ensures exists k :: 0 <= k < |ca[cr]| && IsFalse(Snap(), ca[cr][k]) && Level(ca[cr][k].v) == DecisionLevel()
    {
      forall k | 0 <= k < |ca[cr]| ensures pos[ca[cr][k].v] < |trail| { TrueFacts(Snap(), ca[cr][k]); }
    }

    /** Adds the clause `confl` to the disjunction: the conflict at first, then the reason of `p`. */
    method Absorb(confl: CRef, p: Option<Lit>, pathC0: nat, out0: seq<Lit>, ghost cur0: set<nat>, ghost low0: set<nat>, ghost index: nat)
      returns (pathC: nat, out: seq<Lit>, ghost cur: set<nat>, ghost low: set<nat>)
      requires Running() && DecisionLevel() > 0 && confl in ca
      requires Frontier(Snap(), seen, cur0, low0) && Lists(Snap(), out0, low0) && pathC0 == |cur0| && AllBefore(Snap(), cur0, index)
      requires p.None? ==> Conflict(confl) && index == |trail|
      requires p.Some? ==> IsReason(Snap(), ca[confl], index) && p.value == trail[index] && |cur0| > 0
      requires p.Some? ==> Resolvent(theory, Snap(), cur0 + low0, {p.value.Not()})
      modifies this`seen
      ensures Frontier(Snap(), seen, cur, low) && Lists(Snap(), out, low) && pathC == |cur| && AllBefore(Snap(), cur, index)
      ensures |cur| > 0 && Resolvent(theory, Snap(), cur + low, {})
      ensures cur0 <= cur && low0 <= low && Layered(Snap(), cur, low, index)
      ensures CoveredFrom(Snap(), ca[confl], FirstIndex(p), cur + low) && MarkedFrom(ca[confl], FirstIndex(p), cur0 + low0, cur + low)
    {
      hide ReasonsOk, ClausesOk, Sound, Wf, Frontier, Lists, Entails, CoveredFrom, AllBefore, IsReason, Conflict, MarkedFrom, Layered, Resolvent;
      var c := ca[confl];
      if p.None? {
        ConflictFacts(confl);
      } else {
        ReasonFacts(Snap(), c, index);
      }
      pathC, out, cur, low := MarkLiterals(c, if p.None? then 0 else 1, pathC0, out0, cur0, low0, index);
      FrontierAssigned(Snap(), seen, cur, low);
      FrontierLayered(Snap(), seen, cur, low, index);
      if p.None? {
        CurNotEmpty(Snap(), seen, cur, low, c);
        StartResolvent(theory, ca, Snap(), confl, cur + low);
      } else {
        ResolventFacts(theory, Snap(), cur0 + low0, {p.value.Not()});
        ResolveStep(theory, ca, Snap(), confl, p.value, cur0 + low0, cur + low);
        SubsetCount(cur0, cur);
      }
      IsResolvent(theory, Snap(), cur + low);
    }

    /** Takes the last marked literal of the trail out of the marked variables. */
    method TakeLast(from: nat, ghost cur0: set<nat>, ghost low: set<nat>) returns (p: Lit, index: nat, ghost cur: set<nat>)
      requires Running() && DecisionLevel() > 0 && from < |trail|
      requires Frontier(Snap(), seen, cur0, low) && |cur0| > 0 && AllBefore(Snap(), cur0, from + 1)
      requires Resolvent(theory, Snap(), cur0 + low, {})
      modifies this`seen
      ensures index <= from && p == trail[index] && IsTrue(Snap(), p) && AtLevel(Snap(), p.v, DecisionLevel())
      ensures Frontier(Snap(), seen, cur, low) && |cur| == |cur0| - 1 && AllBefore(Snap(), cur, index)
      ensures p.v in cur0 && cur == cur0 - {p.v} && pos[p.v] == index
      ensures Resolvent(theory, Snap(), cur + low, {p.Not()})
      ensures forall v :: v in cur ==> AtLevel(Snap(), v, DecisionLevel())
    {
      hide ReasonsOk, ClausesOk, Sound, Wf, Frontier, Entails, AllBefore;
      index := LastMarked(from, cur0, low);
      p := trail[index];
      TrailLit(Snap(), index);
      FrontierFacts(Snap(), seen, cur0, low, p.v);
      FrontierLevels(Snap(), seen, cur0, low, p.v);
      ResolventFacts(theory, Snap(), cur0 + low, {});
      SplitFalse(Snap(), cur0 + low, p);
      assert cur0 + low - {p.v} == (cur0 - {p.v}) + low;
      Unmark(Snap(), seen, cur0, low, p.v);
      cur := cur0 - {p.v};
      FrontierAssigned(Snap(), seen[p.v := false], cur, low);
      seen := seen[p.v := false];
    }

    /** Works in the next clause; the conflict and the reasons of `done` have been worked in then. */
    method WorkIn(confl0: CRef, confl: CRef, p: Option<Lit>, pathC0: nat, out0: seq<Lit>, ghost done0: set<nat>, ghost cur0: set<nat>, ghost low0: set<nat>, ghost index: nat)
      returns (pathC: nat, out: seq<Lit>, ghost done: set<nat>, ghost cur: set<nat>, ghost low: set<nat>)
      requires Running() && DecisionLevel() > 0 && confl in ca
      requires Frontier(Snap(), seen, cur0, low0) && Lists(Snap(), out0, low0) && pathC0 == |cur0| && AllBefore(Snap(), cur0, index)
      requires p.None? ==> Conflict(confl) && index == |trail|
      requires p.Some? ==> IsReason(Snap(), ca[confl], index) && p.value == trail[index] && |cur0| > 0
      requires p.Some? ==> Resolvent(theory, Snap(), cur0 + low0, {p.value.Not()})
      requires Traced(ca, Snap(), confl0, p, done0, cur0, low0, index) && NextClause(ca, Snap(), confl0, p, confl)
      modifies this`seen
      ensures Frontier(Snap(), seen, cur, low) && Lists(Snap(), out, low) && pathC == |cur| && AllBefore(Snap(), cur, index)
      ensures |cur| > 0 && Resolvent(theory, Snap(), cur + low, {})
      ensures index > 0 && Tracing(ca, Snap(), confl0, done, done, cur, low, index)
    {
      hide ReasonsOk, ClausesOk, Sound, Wf, Frontier, Lists, Entails, AllBefore, IsReason, Conflict,
        Tracing, Traced, NextClause, CoveredFrom, MarkedFrom, Layered;
      pathC, out, cur, low := Absorb(confl, p, pathC0, out0, cur0, low0, index);
      TraceTurn(ca, Snap(), confl0, p, confl, done0, cur0, low0, cur, low, index);
      done := Through(p, done0);
      BoundPositive(Snap(), cur, index);
    }

    /** Takes the last marked literal of the trail; unless it is the only one of its level, it is no implication point. */
    method TakeNext(ghost confl0: CRef, from: nat, ghost done: set<nat>, ghost cur0: set<nat>, ghost low: set<nat>) returns (p: Lit, index: nat, ghost cur: set<nat>)
      requires Running() && DecisionsFirst(Snap()) && DecisionLevel() > 0 && from < |trail|
      requires Frontier(Snap(), seen, cur0, low) && |cur0| > 0 && AllBefore(Snap(), cur0, from + 1)
      requires Resolvent(theory, Snap(), cur0 + low, {}) && Tracing(ca, Snap(), confl0, done, done, cur0, low, from + 1)
      modifies this`seen
      ensures index <= from && p == trail[index] && IsTrue(Snap(), p) && AtLevel(Snap(), p.v, DecisionLevel())
      ensures Frontier(Snap(), seen, cur, low) && |cur| == |cur0| - 1 && AllBefore(Snap(), cur, index)
      ensures Resolvent(theory, Snap(), cur + low, {p.Not()})
      ensures Traced(ca, Snap(), confl0, Some(p), done, cur, low, index)
      ensures |cur| > 0 ==> HasNext(ca, Snap(), confl0, p, index)
    {
      hide ReasonsOk, ClausesOk, Sound, Wf, Frontier, Entails, Tracing, ImplicationPoint, AllBefore, IsReason, DecisionsFirst, Resolvent, HasNext;
      p, index, cur := TakeLast(from, cur0, low);
      TraceTake(ca, Snap(), confl0, done, p.v, cur0, low, from + 1);
      if |cur| > 0 {
        FrontierAssigned(Snap(), seen, cur, low);
        NextReason(ca, Snap(), confl0, p, index, cur);
      }
    }

    /** Resolves the conflict back to the first unique implication point of the current level. */
    method ResolveToUip(confl0: CRef) returns (out: seq<Lit>, ghost low: set<nat>)
      requires Running() && DecisionsFirst(Snap()) && Conflict(confl0) && DecisionLevel() > 0
      requires |seen| == |assigns| && forall v :: 0 <= v < |seen| ==> !seen[v]
      modifies this`seen
      ensures Frontier(Snap(), seen, {}, low) && Lists(Snap(), out, low)
      ensures forall v :: v in low ==> Assigned(Snap(), v)
      ensures |out| > 0 && IsFalse(Snap(), out[0]) && Level(out[0].v) == DecisionLevel()
      ensures Entails(theory, FalseLits(Snap(), low) + {out[0]})
      ensures FirstUip(ca, Snap(), confl0, out[0].v) && low == Lower(ca, Snap(), confl0, out[0].v)
    {
      hide ReasonsOk, ClausesOk, Sound, Wf, Frontier, Lists, Entails, AllBefore, IsReason, DecisionsFirst,
        Tracing, Traced, NextClause, Conflict, ImplicationPoint, FirstUip, Lower, Resolvent;
      var pathC := 0;
      var p: Option<Lit> := None;
      var confl := confl0;
      var index := |trail|;
      ghost var cur: set<nat>, done: set<nat> := {}, {};
      low := {};
      out := [Lit(0, false)];
      EmptyFrontier(Snap(), seen, out);
      ConflictFacts(confl0);
      TracedStart(ca, Snap(), confl0, index);
      var go := true;
      while go
        invariant 0 <= index <= |trail| && confl in ca
        invariant Frontier(Snap(), seen, cur, low) && Lists(Snap(), out, low) && pathC == |cur| && AllBefore(Snap(), cur, index)
        invariant go && p.None? ==> Conflict(confl) && index == |trail|
        invariant go && p.Some? ==> IsReason(Snap(), ca[confl], index) && |cur| > 0
        invariant Traced(ca, Snap(), confl0, p, done, cur, low, index) && (go ==> NextClause(ca, Snap(), confl0, p, confl))
        invariant p.Some? ==> index < |trail| && p.value == trail[index] && IsTrue(Snap(), p.value) && Level(p.value.v) == DecisionLevel()
        invariant p.Some? ==> Resolvent(theory, Snap(), cur + low, {p.value.Not()})
        invariant !go ==> p.Some? && |cur| == 0
        decreases index, go
      {
        pathC, out, done, cur, low := WorkIn(confl0, confl, p, pathC, out, done, cur, low, index);
        var q;
        q, index, cur := TakeNext(confl0, index - 1, done, cur, low);
        p := Some(q);
        pathC := pathC - 1;
        if pathC > 0 {
          confl := vardata[q.v].reason.value;
        }
        go := pathC > 0;
      }
      assert cur == {};
      ResolventFacts(theory, Snap(), cur + low, {p.value.Not()});
      TracedEnd(ca, Snap(), confl0, p, done, low, index);
      ListsFirst(Snap(), out, low, p.value.Not());
      out := out[0 := p.value.Not()];
      assert cur + low == low;
    }

    /** Clears the marks of the literals of `analyzeToclear` from `top` on. */
    method ClearFrom(top: nat)
      requires top <= |analyzeToclear| && forall i :: top <= i < |analyzeToclear| ==> analyzeToclear[i].v < |seen|
      modifies this`seen
      ensures |seen| == |old(seen)|
      ensures forall v :: 0 <= v < |seen| ==>
        (seen[v] <==> old(seen)[v] && forall i :: top <= i < |analyzeToclear| ==> analyzeToclear[i].v != v)
    {
      var j := top;
      while j < |analyzeToclear|
        invariant top <= j <= |analyzeToclear| && |seen| == |old(seen)|
        invariant forall v :: 0 <= v < |seen| ==>
          (seen[v] <==> old(seen)[v] && forall i :: top <= i < j ==> analyzeToclear[i].v != v)
      {
        seen := seen[analyzeToclear[j].v := false];
        j := j + 1;
      }
    }

    /** Reads the reason of variable `u` and pushes its unmarked literals; fails on one that cannot be redundant. */
    method ReadReason(u: nat, levels: set<nat>, stack0: seq<Lit>, ghost top: nat, ghost seen0: seq<bool>, ghost root: nat)
      returns (ok: bool, stack: seq<Lit>)
      requires ReasonsOk(ca, Snap()) && Assigned(Snap(), u) && vardata[u].reason.Some? && vardata[u].reason.value in ca
      requires IsReason(Snap(), ca[vardata[u].reason.value], pos[u]) && Within(Snap(), seen)
      requires |seen0| == |seen| && top <= |analyzeToclear| && Added(seen0, seen, analyzeToclear[top..])
      requires Walking(ca, Snap(), seen0, seen, root, stack0, u) && StackOk(ca, Snap(), stack0)
      requires Reaches(ca, Snap(), Marked(seen0), root, u) && StackReached(ca, Snap(), Marked(seen0), root, stack0)
      requires OnLevels(Snap(), levels, seen0, seen)
      modifies this`seen, this`analyzeToclear
      ensures |seen| == |seen0| && top <= |analyzeToclear| && analyzeToclear[..top] == old(analyzeToclear)[..top]
      ensures Added(seen0, seen, analyzeToclear[top..])
      ensures ok ==> ClosedOrWaiting(ca, Snap(), seen0, seen, root, stack) && StackOk(ca, Snap(), stack)
      ensures ok ==> Unseen(seen) < Unseen(old(seen)) || (seen == old(seen) && stack == stack0)
      ensures ok ==> StackReached(ca, Snap(), Marked(seen0), root, stack) && OnLevels(Snap(), levels, seen0, seen)
      ensures !ok ==> Needed(ca, Snap(), Marked(seen0), levels, root)
    {
      hide ReasonsOk, Added, Walking, ClosedOrWaiting, StackOk, Wf, Unseen, Marks, Reaches, StackReached, OnLevels, Needed, Marked;
      stack, ok := stack0, true;
      var c := ca[vardata[u].reason.value];
      var i := 1;
      while i < |c|
        invariant 1 <= i <= |c| && |seen| == |seen0| == |assigns|
        invariant top <= |analyzeToclear| && analyzeToclear[..top] == old(analyzeToclear)[..top]
        invariant Added(seen0, seen, analyzeToclear[top..])
        invariant Walking(ca, Snap(), seen0, seen, root, stack, u) && StackOk(ca, Snap(), stack)
        invariant Unseen(seen) < Unseen(old(seen)) || (seen == old(seen) && stack == stack0)
        invariant StackReached(ca, Snap(), Marked(seen0), root, stack) && OnLevels(Snap(), levels, seen0, seen)
        invariant forall k :: 1 <= k < i ==> (c[k].v < |seen| && seen[c[k].v]) || TopFalse(Snap(), c[k])
      {
        var l := c[i];
        if !seen[l.v] && Level(l.v) > 0 {
          AddedMarks(seen0, seen, analyzeToclear[top..]);
          WalkStep(ca, Snap(), seen0, seen, levels, root, u, c, i);
          if vardata[l.v].reason.Some? && Level(l.v) % 32 in levels {
            WalkMarks(ca, Snap(), seen0, seen, levels, root, u, stack, c, i);
            AddOne(ca, Snap(), seen0, seen, analyzeToclear[top..], l);
            Push(ca, Snap(), seen0, seen, root, stack, u, l);
            UnseenShrinks(seen, l.v);
            PushStack(ca, Snap(), stack, l);
            assert (analyzeToclear + [l])[top..] == analyzeToclear[top..] + [l];
            seen := seen[l.v := true];
            stack := stack + [l];
            analyzeToclear := analyzeToclear + [l];
          } else {
            ok := false;
            return;
          }
        }
        i := i + 1;
      }
      DoneReading(ca, Snap(), seen0, seen, root, stack, u);
    }

    /** Whether `p` is implied by marked literals; `levels` (decision levels modulo 32) cuts the search
        short. On success the marks grow by literals that are redundant too, otherwise they are as before. */
    method LitRedundant(p: Lit, levels: set<nat>) returns (redundant: bool)
      requires ReasonsOk(ca, Snap()) && IsFalse(Snap(), p) && Within(Snap(), seen) && vardata[p.v].reason.Some?
      modifies this`seen, this`analyzeToclear
      ensures |seen| == |old(seen)| && old(analyzeToclear) <= analyzeToclear
      ensures !redundant ==> seen == old(seen) && analyzeToclear == old(analyzeToclear)
      ensures redundant ==> Added(old(seen), seen, analyzeToclear[|old(analyzeToclear)|..])
      ensures redundant ==> forall v: nat :: v < |seen| && ((seen[v] && !old(seen)[v]) || v == p.v) ==> Closed(ca, Snap(), seen, v)
      ensures redundant ==> OnLevels(Snap(), levels, old(seen), seen)
      ensures redundant <==> !Needed(ca, Snap(), Marked(old(seen)), levels, p.v)
    {
      hide ReasonsOk, Added, ClosedOrWaiting, Walking, StackOk, Wf, Closed, Unseen, Reaches, Needed, Marked, StackReached, OnLevels;
      var stack := [p];
      var top := |analyzeToclear|;
      ghost var seen0 := seen;
      StartWalk(ca, Snap(), seen, analyzeToclear[top..], p);
      StartReached(ca, Snap(), levels, seen, p);
      while |stack| > 0
        invariant Within(Snap(), seen) && |seen| == |seen0| && top <= |analyzeToclear| && analyzeToclear[..top] == old(analyzeToclear)
        invariant Added(seen0, seen, analyzeToclear[top..])
        invariant ClosedOrWaiting(ca, Snap(), seen0, seen, p.v, stack) && StackOk(ca, Snap(), stack)
        invariant StackReached(ca, Snap(), Marked(seen0), p.v, stack) && OnLevels(Snap(), levels, seen0, seen)
        decreases Unseen(seen), |stack|
      {
        var q := stack[|stack| - 1];
        Pop(ca, Snap(), seen0, seen, p.v, stack);
        PopStack(ca, Snap(), stack);
        PopReached(ca, Snap(), Marked(seen0), p.v, stack);
        StackReason(ca, Snap(), q);
        stack := stack[..|stack| - 1];
        var ok;
        ok, stack := ReadReason(q.v, levels, stack, top, seen0, p.v);
        if !ok {
          AddedRange(seen0, seen, analyzeToclear, top);
          ghost var seen1 := seen;
          ClearFrom(top);
          assert forall i :: 0 <= i < |analyzeToclear[top..]| ==> analyzeToclear[top..][i] == analyzeToclear[top + i];
          ClearedAdded(seen0, seen1, analyzeToclear, top, seen);
          analyzeToclear := analyzeToclear[..top];
          return false;
        }
      }
      WalkDone(ca, Snap(), seen0, seen, p.v);
      WalkEnds(ca, Snap(), levels, seen0, seen, p.v);
      return true;
    }

    /** The literals that are kept while the others are dropped one by one. */
    method Sift(out: seq<Lit>, levels: set<nat>, ghost low: set<nat>) returns (r: seq<Lit>)
      requires Running() && |seen| == |assigns| && levels == LevelsOf(Snap(), low) && |out| >= 1
      requires Minimising(ca, Snap(), seen, low, out, [out[0]], 1) && Cleared(seen, analyzeToclear)
      requires Grown(ca, Snap(), low, levels, seen) && Sifted(ca, Snap(), low, out, [out[0]], 1)
      requires forall k :: 1 <= k < |out| ==> IsFalse(Snap(), out[k])
      modifies this`seen, this`analyzeToclear
      ensures |seen| == |assigns| && 1 <= |r| <= |out| && r[0] == out[0]
      ensures Minimising(ca, Snap(), seen, low, out, r, |out|) && Cleared(seen, analyzeToclear)
      ensures Sifted(ca, Snap(), low, out, r, |out|)
    {
      hide ReasonsOk, ClausesOk, Sound, Wf, Closed, Added, Cleared, Minimising, Essential, Sifted, Needed, Grown, OnLevels, Marked, LevelsOf;
      r := [out[0]];
      var i := 1;
      while i < |out|
        invariant 1 <= i <= |out| && |seen| == |assigns| && 1 <= |r| <= i && r[0] == out[0]
        invariant Minimising(ca, Snap(), seen, low, out, r, i) && Cleared(seen, analyzeToclear)
        invariant Grown(ca, Snap(), low, levels, seen) && Sifted(ca, Snap(), low, out, r, i)
      {
        var drop := Drops(out, i, levels, low, r);
        if !drop {
          r := r + [out[i]];
        }
        i := i + 1;
      }
    }

    /** Whether literal `i` of `out` is dropped. */
    method Drops(out: seq<Lit>, i: nat, levels: set<nat>, ghost low: set<nat>, ghost r: seq<Lit>) returns (redundant: bool)
      requires Running() && |seen| == |assigns| && levels == LevelsOf(Snap(), low)
      requires Minimising(ca, Snap(), seen, low, out, r, i) && Cleared(seen, analyzeToclear)
      requires Grown(ca, Snap(), low, levels, seen) && Sifted(ca, Snap(), low, out, r, i)
      requires 1 <= i < |out| && IsFalse(Snap(), out[i])
      modifies this`seen, this`analyzeToclear
      ensures |seen| == |assigns| && Cleared(seen, analyzeToclear) && Grown(ca, Snap(), low, levels, seen)
      ensures var r' := if redundant then r else r + [out[i]];
        Minimising(ca, Snap(), seen, low, out, r', i + 1) && Sifted(ca, Snap(), low, out, r', i + 1)
      ensures redundant <==> !Essential(ca, Snap(), low, out[i].v)
    {
      hide ReasonsOk, ClausesOk, Sound, Wf, Closed, Added, Cleared, Minimising, Essential, Sifted, Needed, Grown, OnLevels, Marked, LevelsOf;
      ghost var seen0, clear0 := seen, analyzeToclear;
      redundant := false;
      if vardata[out[i].v].reason.Some? {
        redundant := LitRedundant(out[i], levels);
      }
      GrownNeeded(ca, Snap(), low, levels, seen0, out[i].v);
      EssentialExactly(ca, Snap(), low, out[i].v);
      if redundant {
        AddedMarks(seen0, seen, analyzeToclear[|clear0|..]);
        GrownMore(ca, Snap(), low, levels, seen0, seen);
        SiftDrop(ca, Snap(), low, out, r, i);
        DropLit(ca, Snap(), seen0, seen, low, out, r, i);
        ClearedMore(seen0, seen, clear0, analyzeToclear);
      } else {
        SiftKeep(ca, Snap(), low, out, r, i);
        KeepLit(ca, Snap(), seen, low, out, r, i);
      }
    }

    /** The levels, modulo 32, of the literals of `out` from index 1 on. */
    method ReadLevels(out: seq<Lit>, ghost low: set<nat>) returns (levels: set<nat>)
      requires |assigns| == |vardata| && Lists(Snap(), out, low)
      ensures levels == LevelsOf(Snap(), low)
    {
      levels := {};
      var i := 1;
      while i < |out|
        invariant 1 <= i <= |out| && LevelsRead(Snap(), out, i, levels)
      {
        levels := levels + {Level(out[i].v) % 32};
        i := i + 1;
      }
      AllLevelsRead(Snap(), out, low, levels);
    }

    /** Drops the literals of `out` that are implied by the others. */
    method Minimise(out: seq<Lit>, ghost low: set<nat>) returns (r: seq<Lit>, ghost kept: set<nat>)
      requires Running() && Frontier(Snap(), seen, {}, low) && Lists(Snap(), out, low) && IsFalse(Snap(), out[0])
      requires (forall v :: v in low ==> Assigned(Snap(), v)) && Entails(theory, FalseLits(Snap(), low) + {out[0]})
      modifies this`seen, this`analyzeToclear
      ensures |seen| == |assigns| && Lists(Snap(), r, kept) && kept <= low && 1 <= |r| <= |out| && r[0] == out[0]
      ensures (forall v :: v in kept ==> Assigned(Snap(), v)) && Entails(theory, FalseLits(Snap(), kept) + {out[0]})
      ensures forall v :: 0 <= v < |seen| && seen[v] ==> exists i :: 0 <= i < |analyzeToclear| && analyzeToclear[i].v == v
      ensures forall i :: 0 <= i < |analyzeToclear| ==> analyzeToclear[i].v < |seen|
      ensures forall l :: l in r[1..] <==> IsFalse(Snap(), l) && l.v in low && Essential(ca, Snap(), low, l.v)
    {
      hide ReasonsOk, ClausesOk, Sound, Wf, Frontier, Entails, Closed, Added, Lists, Cleared, Minimising, Essential, Sifted, Grown, LevelsOf;
      analyzeToclear := out;
      ListsFacts(Snap(), out, low);
      FrontierAssigned(Snap(), seen, {}, low);
      var levels := ReadLevels(out, low);
      StartGrown(ca, Snap(), seen, low, out, levels);
      StartMinimising(ca, Snap(), seen, low, out, analyzeToclear);
      r := Sift(out, levels, low);
      kept := set l | l in r[1..] :: l.v;
      Minimised(ca, Snap(), seen, low, out, r, kept);
      MinimisedEntailed(theory, ca, Snap(), seen, low, kept, out[0]);
      SiftDone(ca, Snap(), low, out, r);
      ClearedFacts(seen, analyzeToclear);
    }

    /** The level to return to; moves a literal of that level to index 1. */
    method FindBacktrackLevel(out0: Clause) returns (out: Clause, bt: nat)
      requires |assigns| == |vardata| && DecisionLevel() > 0
      requires |out0| >= 1 && DistinctVars(out0) && Entails(theory, Lits(out0))
      requires forall i :: 0 <= i < |out0| ==> IsFalse(Snap(), out0[i])
      requires forall i :: 1 <= i < |out0| ==> IsFalse(Snap(), out0[i]) && 0 < Level(out0[i].v) < DecisionLevel()
      requires IsFalse(Snap(), out0[0]) && Level(out0[0].v) == DecisionLevel()
      ensures Learnt(theory, Snap(), out, bt) && out[0] == out0[0] && forall l :: l in out[1..] <==> l in out0[1..]
    {
      hide Entails;
      if |out0| == 1 {
        return out0, 0;
      }
      var maxI := 1;
      var i := 2;
      while i < |out0|
        invariant 2 <= i <= |out0| && 1 <= maxI < i
        invariant forall k :: 1 <= k < i ==> Level(out0[k].v) <= Level(out0[maxI].v)
      {
        if Level(out0[i].v) > Level(out0[maxI].v) {
          maxI := i;
        }
        i := i + 1;
      }
      var p := out0[maxI];
      out := out0[maxI := out0[1]][1 := p];
      SwapReorders(out0, 1, maxI);
      assert out == Swapped(out0, 1, maxI);
      SwapTail(out0, maxI);
      bt := Level(p.v);
    }

    /** First-UIP conflict analysis with recursive clause minimisation. */
    method Analyze(confl: CRef) returns (out: Clause, bt: nat)
      requires Running() && DecisionsFirst(Snap()) && Conflict(confl) && DecisionLevel() > 0
      requires |seen| == |assigns| && forall v :: 0 <= v < |seen| ==> !seen[v]
      modifies this`seen, this`analyzeToclear
      ensures Learnt(theory, Snap(), out, bt)
      ensures |seen| == |assigns| && forall v :: 0 <= v < |seen| ==> !seen[v]
      ensures LearntFrom(ca, Snap(), confl, out)
    {
      hide ReasonsOk, ClausesOk, Sound, Wf, Frontier, Lists, Entails, Conflict, DecisionsFirst, FirstUip, Lower, Essential;
      ghost var low, kept;
      out, low := ResolveToUip(confl);
      FrontierLow(Snap(), seen, low);
      out, kept := Minimise(out, low);
      LearntClause(theory, Snap(), seen, low, kept, out);
      out, bt := FindBacktrackLevel(out);
      ghost var seen1 := seen;
      ClearFrom(0);
      forall v | 0 <= v < |seen| ensures !seen[v] {
        if seen1[v] {
          var i :| 0 <= i < |analyzeToclear| && analyzeToclear[i].v == v;
        }
      }
    }

    // ----- backtracking -----

    /** Reverts to the given level, keeping its assignments. */
    method CancelUntil(level: nat)
      requires Wf(Snap())
      modifies this`assigns, this`trail, this`trailLim, this`qhead
      ensures level >= |old(trailLim)| ==> Snap() == old(Snap()) && qhead == old(qhead)
      ensures level < |old(trailLim)| ==> Snap() == CancelTo(old(Snap()), level) && qhead == |trail|
    {
      if DecisionLevel() > level {
        ghost var t := Snap();
        var c := |trail|;
        while c > trailLim[level]
          invariant trail == t.trail && trailLim == t.lim && |assigns| == |t.assigns|
          invariant trailLim[level] <= c <= |trail|
          invariant forall v :: 0 <= v < |assigns| ==>
            assigns[v] == if t.assigns[v] != LUndef && t.pos[v] < c then t.assigns[v] else LUndef
        {
          c := c - 1;
          var x := trail[c].v;
          TrailLit(t, c);
          assigns := assigns[x := LUndef];
        }
        assert assigns == CancelTo(t, level).assigns;
        qhead := trailLim[level];
        trail := trail[..trailLim[level]];
        trailLim := trailLim[..level];
      }
    }

    // ----- the clause database -----

    /** The clause lists agree with the stored clauses; nothing is marked. */
    ghost predicate Stored()
      reads this
    {
      && RefsBelow(ca, watches, nextRef)
      && (forall cr :: cr in clauses ==> cr in ca && cr !in learnts)
      && (forall cr :: cr in learnts ==> cr in ca)
      && (forall i, j :: 0 <= i < j < |learnts| ==> learnts[i] != learnts[j])
      && |seen| == |assigns| && (forall v :: 0 <= v < |seen| ==> !seen[v])
      && (forall l :: l in assumptions ==> l.v < |assigns|)
      && (ok ==> Covered(theory, ca, clauses, Snap()))
    }

    /** The solver between two calls of `Propagate`, with nothing left to do up to `qhead`. */
    ghost predicate Ready()
      reads this
    {
      !reallyUnsat && floor == 0 && Settled()
    }

    /** The same for a theory that a search may have refuted. */
    ghost predicate Settled()
      reads this
    {
      ok && Running() && Stored() && WatchesLazy(ca, watches, |assigns|) && PropagatedTo(ca, Snap(), qhead)
    }

    ghost predicate Locked(cr: CRef)
      requires cr in ca && |ca[cr]| > 0
      reads this
    {
      IsTrue(Snap(), ca[cr][0]) && ca[cr][0].v < |vardata| && vardata[ca[cr][0].v].reason == Some(cr)
    }

    /** Watches the first two literals of a stored clause. */
    method AttachClause(cr: CRef)
      requires cr in ca && |ca[cr]| >= 2 && ca[cr][0].Not() in watches && ca[cr][1].Not() in watches
      modifies this`watches
      ensures watches == Attach(old(watches), cr, ca[cr])
    {
      var c := ca[cr];
      watches := watches[c[0].Not() := watches[c[0].Not()] + [Watcher(cr, c[1])]];
      watches := watches[c[1].Not() := watches[c[1].Not()] + [Watcher(cr, c[0])]];
    }

    /** Allocates a clause under the next reference and attaches it. */
    method StoreAt(cr: CRef, c: Clause)
      requires cr == nextRef && |c| >= 2 && c[0].Not() in watches && c[1].Not() in watches
      modifies this`ca, this`nextRef, this`watches
      ensures ca == old(ca)[cr := c] && nextRef == cr + 1 && watches == Attach(old(watches), cr, c)
    {
      ca := ca[cr := c];
      nextRef := cr + 1;
      AttachClause(cr);
    }

    /** Enqueues a consequence of the theory at level 0. */
    method EnqueueFact(l: Lit)
      requires Ready() && l.v < |assigns| && assigns[l.v] == LUndef
      requires DecisionLevel() == 0 && Entails(theory, {l})
      modifies this`assigns, this`vardata, this`trail, this`pos
      ensures Ready() && Snap() == Enq(old(Snap()), l, None)
    {
      hide ReasonsOk, ClausesOk, WatchesLazy, PropagatedTo, Sound, Wf, Entails, Covered, RefsBelow;
      EnqReady(l, None);
      UncheckedEnqueue(l, None);
    }

    /** Stores the learnt clause `c` and enqueues its first literal, the other ones being false. */
    method StoreLearnt(c: Clause)
      requires Ready() && qhead == |trail|
      requires |c| > 1 && DistinctVars(c) && Entails(theory, Lits(c))
      requires c[0].v < |assigns| && assigns[c[0].v] == LUndef
      requires forall i :: 1 <= i < |c| ==> IsFalse(Snap(), c[i])
      requires IsFalse(Snap(), c[1]) && Level(c[1].v) == DecisionLevel() && DecisionLevel() > 0
      modifies this`ca, this`nextRef, this`learnts, this`watches, this`assigns, this`vardata, this`trail, this`pos
      ensures Ready() && Snap() == Enq(old(Snap()), c[0], Some(old(nextRef)))
      ensures ca == old(ca)[old(nextRef) := c] && learnts == old(learnts) + [old(nextRef)]
    {
      hide ReasonsOk, ClausesOk, WatchesLazy, PropagatedTo, Sound, Wf, Entails, Covered, RefsBelow, Attach, DistinctVars, IsFalse, Lits;
      var cr := nextRef;
      StoreReady(cr, c);
      StoreAt(cr, c);
      learnts := learnts + [cr];
      UncheckedEnqueue(c[0], Some(cr));
    }

    lemma EnqReady(l: Lit, from: Option<CRef>)
      requires Ready() && l.v < |assigns| && assigns[l.v] == LUndef && from.None?
      requires DecisionLevel() == 0 && Entails(theory, {l})
      ensures var t' := Enq(Snap(), l, from);
        && ReasonsOk(ca, t') && Wf(t') && Sound(theory, ca, t') && Covered(theory, ca, clauses, t') && PropagatedTo(ca, t', qhead)
    {
      hide ReasonsOk, ClausesOk, WatchesLazy, Sound, Wf, Entails, Covered, RefsBelow;
      EnqWf(Snap(), l, from);
      EnqReasons(ca, Snap(), l, from);
      EnqSound(theory, ca, Snap(), l, from);
      EnqCovered(theory, ca, clauses, Snap(), l, from);
      EnqPropagated(ca, Snap(), l, from, qhead, l, []);
      NoExemption(ca, Enq(Snap(), l, from), qhead, l);
      NoExemption(ca, Snap(), qhead, l);
    }

    lemma StoreReady(cr: CRef, c: Clause)
      requires Ready() && qhead == |trail| && cr == nextRef
      requires |c| > 1 && DistinctVars(c) && Entails(theory, Lits(c))
      requires c[0].v < |assigns| && assigns[c[0].v] == LUndef
      requires forall i :: 1 <= i < |c| ==> IsFalse(Snap(), c[i])
      requires IsFalse(Snap(), c[1]) && Level(c[1].v) == DecisionLevel() && DecisionLevel() > 0
      ensures c[0].Not() in watches && c[1].Not() in watches && cr !in ca && cr !in learnts && cr !in clauses
      ensures var ca' := ca[cr := c]; var t' := Enq(Snap(), c[0], Some(cr));
        && ReasonsOk(ca', t') && Wf(t') && Sound(theory, ca', t') && Covered(theory, ca', clauses, t')
        && PropagatedTo(ca', t', qhead) && ClausesOk(ca', |assigns|)
        && WatchesLazy(ca', Attach(watches, cr, c), |assigns|) && RefsBelow(ca', Attach(watches, cr, c), cr + 1)
    {
      hide ReasonsOk, WatchesLazy, PropagatedTo, Wf, Entails, Covered, RefsBelow, Attach;
      var t, ca' := Snap(), ca[cr := c];
      CrNotIn(ca, watches, cr);
      assert forall i :: 0 <= i < |c| ==> c[i].v < |assigns|;
      AttachLazy(ca, watches, |assigns|, cr, c);
      AttachRefs(ca, watches, cr, c);
      LearntPropagated(ca, t, cr, c);
      MoreClausesReasons(ca, t, cr, c);
      EnqWf(t, c[0], Some(cr));
      EnqReasons(ca', t, c[0], Some(cr));
      EnqSound(theory, ca', t, c[0], Some(cr));
      assert forall l :: TopTrue(t, l) ==> TopTrue(Enq(t, c[0], Some(cr)), l) by { hide Sound, ClausesOk; EnqTopAll(t, c[0], Some(cr)); }
      CoveredGrows(theory, ca, ca', clauses, clauses, t, Enq(t, c[0], Some(cr)));
    }

    // ----- search -----

    /** The open levels follow the assumptions. */
    ghost predicate Assuming()
      reads this
    {
      && Follows(Snap(), assumptions)
      && LevelsBound(trailLim, |trail|, |assumptions|)
    }

    /** Propagation from a ready state, keeping the database facts. */
    method PropagateStored() returns (confl: Option<CRef>)
      requires Settled()
      modifies this`ca, this`watches, this`assigns, this`vardata, this`trail, this`pos, this`qhead
      ensures Running() && Stored() && WatchesLazy(ca, watches, |assigns|) && qhead == |trail|
      ensures Extends(old(Snap()), Snap()) && |trail| <= |assigns| == |old(assigns)| && SameClauses(old(ca), ca)
      ensures trailLim == old(trailLim) && |old(trail)| <= |trail|
      ensures confl.None? ==> PropagatedTo(ca, Snap(), |trail|)
      ensures confl.Some? ==> Conflict(confl.value)
      ensures confl.Some? && DecisionLevel() > 0 ==> PropagatedTo(ca, Snap(), trailLim[DecisionLevel() - 1])
      ensures old(qhead) == |old(trail)| ==> confl.None? && Snap() == old(Snap())
    {
      hide ReasonsOk, ClausesOk, WatchesOk, WatchesLazy, PropagatedTo, Sound, Wf, Extends, Conflict, Covered, RefsBelow, SameClauses;
      ghost var t0, ca0 := Snap(), ca;
      RefsFacts(ca, watches, nextRef);
      confl := Propagate();
      SameKeys(ca0, ca);
      ExtendsFacts(t0, Snap());
      LazyRefs(ca, watches, |assigns|, nextRef);
      PropagationCovers(theory, ca0, ca, clauses, t0, Snap());
      TrailShort(Snap());
    }

    /** The same while the levels follow the assumptions. */
    method PropagateReady() returns (confl: Option<CRef>)
      requires Ready() && Assuming()
      modifies this`ca, this`watches, this`assigns, this`vardata, this`trail, this`pos, this`qhead
      ensures Running() && Stored() && WatchesLazy(ca, watches, |assigns|) && qhead == |trail| && Assuming()
      ensures SameClauses(old(ca), ca)
      ensures trailLim == old(trailLim) && |old(trail)| <= |trail| <= |assigns| == |old(assigns)|
      ensures confl.None? ==> PropagatedTo(ca, Snap(), |trail|)
      ensures confl.Some? ==> Conflict(confl.value)
      ensures confl.Some? && DecisionLevel() > 0 ==> PropagatedTo(ca, Snap(), trailLim[DecisionLevel() - 1])
      ensures old(qhead) == |old(trail)| ==> confl.None? && Snap() == old(Snap())
    {
      hide ReasonsOk, ClausesOk, WatchesOk, WatchesLazy, PropagatedTo, Sound, Wf, Extends, Conflict, Covered, RefsBelow, Follows, LevelsBound, SameClauses;
      ghost var t0 := Snap();
      confl := PropagateStored();
      ExtendsFollows(t0, Snap(), assumptions);
      LevelsGrow(trailLim, |t0.trail|, |trail|, |assumptions|);
    }

    /** Reverts to `level` from a state settled below the current level. */
    method Revert(level: nat)
      requires ok && !reallyUnsat && floor == 0 && Running() && Stored() && WatchesLazy(ca, watches, |assigns|)
      requires level < DecisionLevel() && PropagatedTo(ca, Snap(), trailLim[DecisionLevel() - 1])
      modifies this`assigns, this`trail, this`trailLim, this`qhead
      ensures Ready() && Snap() == CancelTo(old(Snap()), level) && qhead == |trail|
      ensures trailLim == old(trailLim)[..level] && |trail| == old(trailLim)[level]
    {
      hide ReasonsOk, ClausesOk, WatchesLazy, PropagatedTo, Sound, Wf, Covered, RefsBelow;
      ghost var t := Snap();
      LimFacts(t, level);
      CancelWf(t, level);
      CancelReasons(ca, t, level);
      CancelPropagated(ca, t, level, trailLim[DecisionLevel() - 1]);
      CancelSound(theory, ca, clauses, t, level);
      CancelUntil(level);
    }

    /** The same while the levels follow the assumptions. */
    method Backjump(level: nat)
      requires ok && !reallyUnsat && floor == 0 && Running() && Stored() && WatchesLazy(ca, watches, |assigns|) && Assuming()
      requires level < DecisionLevel() && PropagatedTo(ca, Snap(), trailLim[DecisionLevel() - 1])
      modifies this`assigns, this`trail, this`trailLim, this`qhead
      ensures Ready() && Assuming() && Snap() == CancelTo(old(Snap()), level) && qhead == |trail|
      ensures trailLim == old(trailLim)[..level] && |trail| == old(trailLim)[level]
    {
      hide ReasonsOk, ClausesOk, WatchesLazy, PropagatedTo, Sound, Wf, Covered, RefsBelow, Follows, LevelsBound, CancelTo;
      CancelFollows(Snap(), assumptions, level);
      LevelsBack(trailLim, |trail|, level, trailLim[level], |assumptions|);
      Revert(level);
    }

    /** Enqueues the first literal of a learnt clause, which is stored unless it is a unit. */
    method Learn(c: Clause)
      requires Ready() && qhead == |trail| && Assuming() && |c| > 0 && DistinctVars(c) && Entails(theory, Lits(c))
      requires c[0].v < |assigns| && assigns[c[0].v] == LUndef
      requires forall i :: 1 <= i < |c| ==> IsFalse(Snap(), c[i])
      requires |c| == 1 ==> DecisionLevel() == 0
      requires |c| > 1 ==> IsFalse(Snap(), c[1]) && Level(c[1].v) == DecisionLevel() && DecisionLevel() > 0
      modifies this`ca, this`nextRef, this`learnts, this`watches, this`assigns, this`vardata, this`trail, this`pos
      ensures Ready() && Assuming() && Snap() == Enq(old(Snap()), c[0], if |c| == 1 then None else Some(old(nextRef)))
      ensures if |c| == 1 then ca == old(ca) && learnts == old(learnts)
        else ca == old(ca)[old(nextRef) := c] && learnts == old(learnts) + [old(nextRef)]
    {
      hide ReasonsOk, ClausesOk, WatchesLazy, PropagatedTo, Sound, Wf, Covered, RefsBelow, Follows, LevelsBound, Entails;
      EnqFollows(Snap(), assumptions, c[0], if |c| == 1 then None else Some(nextRef));
      LevelsGrow(trailLim, |trail|, |trail| + 1, |assumptions|);
      if |c| == 1 {
        assert Lits(c) == {c[0]};
        EnqueueFact(c[0]);
      } else {
        StoreLearnt(c);
      }
    }

    /** Learns from a conflict above level 0 and returns to the level the learnt clause names. */
    method HandleConflict(confl: CRef) returns (learnt: Clause)
      requires ok && !reallyUnsat && floor == 0 && Running() && Stored() && WatchesLazy(ca, watches, |assigns|) && qhead == |trail| && Assuming()
      requires Conflict(confl) && DecisionLevel() > 0 && PropagatedTo(ca, Snap(), trailLim[DecisionLevel() - 1])
      modifies this`ca, this`nextRef, this`learnts, this`watches, this`assigns, this`vardata, this`trail, this`trailLim,
        this`pos, this`qhead, this`seen, this`analyzeToclear
      ensures Ready() && Assuming() && |assigns| == old(|assigns|)
      ensures |trailLim| < old(|trailLim|) && trailLim == old(trailLim)[..|trailLim|] && |trail| == old(trailLim)[|trailLim|] + 1
      ensures LearntFrom(old(ca), old(Snap()), confl, learnt) && trail[|trail| - 1] == learnt[0]
      ensures if |learnt| == 1 then ca == old(ca) && learnts == old(learnts)
        else ca == old(ca)[old(nextRef) := learnt] && learnts == old(learnts) + [old(nextRef)]
    {
      hide ReasonsOk, ClausesOk, WatchesLazy, PropagatedTo, Sound, Wf, Conflict, Covered, RefsBelow, Follows, LevelsBound, Learnt, Entails, CancelTo, LearntFrom;
      FollowsDecisions(Snap(), assumptions);
      var bt;
      learnt, bt := Analyze(confl);
      LearntFacts(theory, Snap(), learnt, bt);
      LearntAfterCancel(theory, Snap(), learnt, bt);
      Backjump(bt);
      Learn(learnt);
    }

    // ----- forgetting learnt clauses -----

    /** Forgets the reason of a level-0 variable. */
    method ForgetReason(v: nat)
      requires Ready() && Assuming() && v < |vardata| && vardata[v].level == 0
      modifies this`vardata
      ensures Ready() && Assuming() && vardata == old(vardata)[v := VarData(None, 0)]
    {
      hide ReasonsOk, WatchesLazy, PropagatedTo, Sound, Wf, Covered, RefsBelow, LevelsBound, Follows, ClausesOk;
      DropReason(ca, Snap(), v);
      DropReasonRest(theory, ca, clauses, Snap(), v, qhead);
      DropReasonFollows(Snap(), assumptions, v);
      ReasonsWf(ca, Snap().(vardata := vardata[v := VarData(None, 0)]));
      vardata := vardata[v := VarData(None, 0)];
    }

    /** Removes the learnt clause at index `i`; at level 0 it may be the reason of a literal. */
    method RemoveLearnt(i: nat)
      requires Ready() && Assuming() && i < |learnts|
      requires DecisionLevel() == 0 || !Locked(learnts[i])
      modifies this`ca, this`learnts, this`vardata
      ensures Ready() && Assuming() && learnts == old(learnts)[..i] + old(learnts)[i + 1..]
      ensures ca == old(ca) - {old(learnts)[i]}
    {
      hide ReasonsOk, WatchesLazy, PropagatedTo, Sound, Wf, Covered, RefsBelow, LevelsBound, Follows;
      var cr := learnts[i];
      var v := ca[cr][0].v;
      if vardata[v].reason == Some(cr) && Value(ca[cr][0]) == LTrue {
        LockedAtTop(ca[cr][0]);
        ForgetReason(v);
      }
      RemoveUnlocked(i);
    }

    method RemoveUnlocked(i: nat)
      requires Ready() && Assuming() && i < |learnts| && !Locked(learnts[i])
      modifies this`ca, this`learnts
      ensures Ready() && Assuming() && learnts == old(learnts)[..i] + old(learnts)[i + 1..]
      ensures ca == old(ca) - {old(learnts)[i]}
    {
      hide ReasonsOk, WatchesLazy, PropagatedTo, Sound, Wf, Covered, RefsBelow, LevelsBound, Follows;
      var cr := learnts[i];
      RemoveReasons(ca, Snap(), cr);
      RemoveLazy(ca, watches, |assigns|, cr);
      RemoveRest(theory, ca, clauses, Snap(), cr, qhead);
      RemoveRefs(ca, watches, nextRef, cr);
      WithoutOne(learnts, i);
      ca := ca - {cr};
      learnts := learnts[..i] + learnts[i + 1..];
    }

    /** Taking out one of different references. */
    static lemma WithoutOne(rs: seq<CRef>, i: nat)
      requires i < |rs| && forall j, k :: 0 <= j < k < |rs| ==> rs[j] != rs[k]
      ensures var out := rs[..i] + rs[i + 1..];
        && (forall d :: d in out ==> d in rs && d != rs[i])
        && forall j, k :: 0 <= j < k < |out| ==> out[j] != out[k]
    {
      var out := rs[..i] + rs[i + 1..];
      forall k | 0 <= k < |out| ensures out[k] == rs[if k < i then k else k + 1] { }
    }

    lemma LockedAtTop(l: Lit)
      requires Wf(Snap()) && IsTrue(Snap(), l) && DecisionLevel() == 0
      ensures Level(l.v) == 0
    {
      LevelBound(Snap(), l);
    }

    /** Forgets some learnt clauses that are not reasons; which ones is left open. Problem clauses and
        binary clauses stay. */
    method ReduceDB()
      requires Ready() && Assuming()
      modifies this`ca, this`learnts, this`vardata
      ensures Ready() && Assuming()
      ensures forall cr :: cr in ca ==> cr in old(ca) && ca[cr] == old(ca)[cr]
      ensures forall cr :: cr in old(ca) && cr !in ca ==> cr in old(learnts) && |old(ca)[cr]| > 2
    {
      hide ReasonsOk, ClausesOk, WatchesLazy, PropagatedTo, Sound, Wf, Covered, RefsBelow, LevelsBound, Follows;
      var i := 0;
      while i < |learnts|
        invariant Ready() && Assuming() && i <= |learnts| && forall cr :: cr in learnts ==> cr in old(learnts)
        invariant forall cr :: cr in ca ==> cr in old(ca) && ca[cr] == old(ca)[cr]
        invariant forall cr :: cr in old(ca) && cr !in ca ==> cr in old(learnts) && |old(ca)[cr]| > 2
        decreases |learnts| - i
      {
        var cr := learnts[i];
        assert cr in learnts;
        var wanted: bool := *;
        ClauseFacts(ca, |assigns|, cr);
        var c := ca[cr];
        var locked := Value(c[0]) == LTrue && vardata[c[0].v].reason == Some(cr);
        if wanted && |c| > 2 && !locked {
          RemoveLearnt(i);
        } else {
          i := i + 1;
        }
      }
    }

    /** Whether some literal of `c` is true. */
    method Satisfied(c: Clause) returns (r: bool)
      requires forall k :: 0 <= k < |c| ==> c[k].v < |assigns|
      ensures r <==> exists k :: 0 <= k < |c| && IsTrue(Snap(), c[k])
    {
      var i := 0;
      while i < |c|
        invariant 0 <= i <= |c| && forall k :: 0 <= k < i ==> !IsTrue(Snap(), c[k])
      {
        if Value(c[i]) == LTrue {
          return true;
        }
        i := i + 1;
      }
      return false;
    }

    /** Some literal of the clause is true. */
    ghost predicate TrueClause(c: Clause)
      reads this`assigns
    {
      exists k :: 0 <= k < |c| && c[k].v < |assigns| && assigns[c[k].v] == if c[k].neg then LFalse else LTrue
    }

    /** Removes the learnt clause at index `i` when it is satisfied. */
    method SimplifyAt(i: nat) returns (removed: bool)
      requires Ready() && Assuming() && DecisionLevel() == 0 && i < |learnts|
      modifies this`ca, this`learnts, this`vardata
      ensures Ready() && Assuming() && old(learnts)[i] in old(ca) && (removed <==> TrueClause(old(ca)[old(learnts)[i]]))
      ensures removed ==> ca == old(ca) - {old(learnts)[i]} && learnts == old(learnts)[..i] + old(learnts)[i + 1..]
      ensures removed ==> forall k :: 0 <= k < i ==> old(learnts)[k] != old(learnts)[i]
      ensures !removed ==> ca == old(ca) && learnts == old(learnts)
    {
      hide ReasonsOk, ClausesOk, WatchesLazy, PropagatedTo, Sound, Wf, Covered, RefsBelow, LevelsBound, Follows, TrueClause;
      assert learnts[i] in learnts;
      ClauseFacts(ca, |assigns|, learnts[i]);
      removed := Satisfied(ca[learnts[i]]);
      SatisfiedIs(ca[learnts[i]]);
      if removed { RemoveLearnt(i); }
    }

    /** At level 0, removes the learnt clauses that are satisfied, and only those. */
    method RemoveSatisfied()
      requires Ready() && Assuming() && DecisionLevel() == 0
      modifies this`ca, this`learnts, this`vardata
      ensures Ready() && Assuming()
      ensures forall cr :: cr in ca ==> cr in old(ca) && ca[cr] == old(ca)[cr]
      ensures forall cr :: cr in old(ca) && cr !in ca ==> cr in old(learnts) && TrueClause(old(ca)[cr])
      ensures forall cr :: cr in learnts ==> cr in ca && !TrueClause(ca[cr])
    {
      hide ReasonsOk, ClausesOk, WatchesLazy, PropagatedTo, Sound, Wf, Covered, RefsBelow, LevelsBound, Follows, TrueClause, Solver.Stored, Solver.Running;
      var i := 0;
      while i < |learnts|
        invariant Ready() && Assuming() && i <= |learnts| && forall cr :: cr in learnts ==> cr in old(learnts)
        invariant forall cr :: cr in ca ==> cr in old(ca) && ca[cr] == old(ca)[cr]
        invariant forall cr :: cr in old(ca) && cr !in ca ==> cr in old(learnts) && TrueClause(old(ca)[cr])
        invariant forall k :: 0 <= k < i ==> learnts[k] in ca && !TrueClause(ca[learnts[k]])
        decreases |learnts| - i
      {
        assert learnts[i] in learnts;
        var removed := SimplifyAt(i);
        if !removed { i := i + 1; }
      }
    }

    lemma SatisfiedIs(c: Clause)
      ensures TrueClause(c) <==> exists k :: 0 <= k < |c| && IsTrue(Snap(), c[k])
    {
    }

    // ----- decisions -----

    /** Some unassigned variable with some sign, if there is one. */
    method PickBranchLit() returns (next: Option<Lit>)
      ensures next.None? ==> forall v :: 0 <= v < |assigns| ==> assigns[v] != LUndef
      ensures next.Some? ==> next.value.v < |assigns| && assigns[next.value.v] == LUndef
    {
      if v: nat :| v < |assigns| && assigns[v] == LUndef {
        var negative: bool := *;
        next := Some(Lit(v, negative));
      } else {
        next := None;
      }
    }

    /** Opens a level without a decision, its assumption being true already. */
    method DummyLevel()
      requires Ready() && Assuming() && qhead == |trail| && DecisionLevel() < |assumptions|
      requires IsTrue(Snap(), assumptions[DecisionLevel()])
      modifies this`trailLim
      ensures Ready() && Assuming() && trailLim == old(trailLim) + [|trail|]
    {
      hide ReasonsOk, ClausesOk, WatchesLazy, PropagatedTo, Sound, Wf, Covered, RefsBelow, LevelsBound, Follows;
      NewLevelReady();
      NewLevelFollows(Snap(), assumptions);
      LevelsDummy(trailLim, |trail|, |assumptions|);
      NewDecisionLevel();
    }

    lemma NewLevelReady()
      requires Ready()
      ensures var t' := NewLevel(Snap());
        Wf(t') && ReasonsOk(ca, t') && Sound(theory, ca, t') && Covered(theory, ca, clauses, t') && PropagatedTo(ca, t', qhead)
    {
      hide ClausesOk, WatchesLazy, RefsBelow, PropagatedTo, Covered;
      var t, t' := Snap(), NewLevel(Snap());
      assert forall l :: TopTrue(t', l) <==> TopTrue(t, l);
      NewLevelReasons(ca, t);
      NewLevelPropagated(ca, t, qhead);
      CoveredGrows(theory, ca, ca, clauses, clauses, t, t');
    }

    /** Opens a level with the decision `next`. */
    method Decide(next: Lit)
      requires Ready() && Assuming() && qhead == |trail| && next.v < |assigns| && assigns[next.v] == LUndef
      requires DecisionLevel() < |assumptions| ==> next == assumptions[DecisionLevel()]
      modifies this`assigns, this`vardata, this`trail, this`trailLim, this`pos
      ensures Ready() && Assuming() && trailLim == old(trailLim) + [|old(trail)|] && |trail| == |old(trail)| + 1
    {
      hide ReasonsOk, ClausesOk, WatchesLazy, PropagatedTo, Sound, Wf, Covered, RefsBelow, LevelsBound, Follows;
      ghost var t := NewLevel(Snap());
      NewLevelReady();
      DecideReady(next);
      DecideFollows(Snap(), assumptions, next);
      LevelsDecide(trailLim, |trail|, |assumptions|);
      NewDecisionLevel();
      UncheckedEnqueue(next, None);
    }

    lemma DecideReady(l: Lit)
      requires Ready() && qhead == |trail| && l.v < |assigns| && assigns[l.v] == LUndef
      ensures var t' := Enq(NewLevel(Snap()), l, None);
        Wf(t') && ReasonsOk(ca, t') && Sound(theory, ca, t') && Covered(theory, ca, clauses, t') && PropagatedTo(ca, t', qhead)
    {
      hide ReasonsOk, ClausesOk, WatchesLazy, PropagatedTo, Sound, Wf, Covered, RefsBelow;
      NewLevelReady();
      var t := NewLevel(Snap());
      EnqWf(t, l, None);
      EnqReasons(ca, t, l, None);
      EnqSound(theory, ca, t, l, None);
      EnqCovered(theory, ca, clauses, t, l, None);
      NoExemption(ca, t, qhead, l);
      EnqPropagated(ca, t, l, None, qhead, l, []);
      NoExemption(ca, Enq(t, l, None), qhead, l);
    }

    /** Opens levels for true assumptions up to the first one that is not. */
    method PlaceAssumptions() returns (r: Placement)
      requires Ready() && Assuming() && qhead == |trail|
      modifies this`trailLim
      ensures Ready() && Assuming() && old(trailLim) <= trailLim
      ensures |trailLim| > old(|trailLim|) ==> trailLim[old(|trailLim|)] == |trail|
      ensures r.Decision? ==> DecisionLevel() < |assumptions| && r.l == assumptions[DecisionLevel()] && assigns[r.l.v] == LUndef
      ensures r.Contradicted? ==> !Satisfiable(theory, assumptions)
      ensures r.AllPlaced? ==> DecisionLevel() >= |assumptions|
    {
      hide ReasonsOk, ClausesOk, WatchesLazy, PropagatedTo, Sound, Wf, Covered, RefsBelow, LevelsBound, Follows, Satisfiable;
      while DecisionLevel() < |assumptions|
        invariant Ready() && Assuming() && old(trailLim) <= trailLim
        invariant |trailLim| > old(|trailLim|) ==> trailLim[old(|trailLim|)] == |trail|
      {
        var p := assumptions[DecisionLevel()];
        if Value(p) == LTrue {
          DummyLevel();
        } else if Value(p) == LFalse {
          FalseAssumption(theory, ca, Snap(), assumptions, p);
          return Contradicted;
        } else {
          return Decision(p);
        }
      }
      return AllPlaced;
    }

    /** The invariant between two public calls; an unsatisfiable theory has been noticed, or
        everything before `qhead` is propagated. */
    ghost predicate Valid()
      reads this
    {
      && Running() && Stored() && WatchesLazy(ca, watches, |assigns|)
      && (ok ==> PropagatedTo(ca, Snap(), qhead))
      && (!reallyUnsat ==> floor == 0)
      && (!ok || reallyUnsat ==> Entails(theory, {}))
    }

    /** A conflict at level 0 refutes the theory. */
    lemma TopConflict(cr: CRef)
      requires Running() && Conflict(cr) && DecisionLevel() == 0
      ensures Entails(theory, {})
    {
      forall k | 0 <= k < |ca[cr]| ensures TopFalse(Snap(), ca[cr][k]) { LevelBound(Snap(), ca[cr][k]); }
      EmptyEntailed(theory, ca, Snap(), cr);
    }

    lemma Refuted(a: seq<Lit>)
      requires Entails(theory, {})
      ensures !Satisfiable(theory, a)
    {
      forall m: Assignment | IsModel(m, theory, a) ensures false { }
    }

    lemma SameTrue(c: Clause, c': Clause)
      requires Reordered(c, c')
      ensures TrueClause(c) <==> TrueClause(c')
    {
      if TrueClause(c) {
        var k :| 0 <= k < |c| && c[k].v < |assigns| && assigns[c[k].v] == if c[k].neg then LFalse else LTrue;
        assert c[k] in Lits(c');
      }
      if TrueClause(c') {
        var k :| 0 <= k < |c'| && c'[k].v < |assigns| && assigns[c'[k].v] == if c'[k].neg then LFalse else LTrue;
        assert c'[k] in Lits(c);
      }
    }

    /** At level 0: propagates, reports a refuted theory, and unless it returns early (which the source
        decides by the units and the work since the last call) removes the satisfied learnt clauses. */
    method Simplify() returns (r: bool, ghost swept: bool)
      requires Ready() && Assuming() && DecisionLevel() == 0
      modifies this`ca, this`learnts, this`watches, this`assigns, this`vardata, this`trail, this`pos, this`qhead, this`ok
      ensures r ==> Ready() && Assuming() && qhead == |trail|
      ensures !r ==> Valid() && Assuming() && !ok && Entails(theory, {})
      ensures trailLim == old(trailLim) && |assigns| == |old(assigns)|
      ensures old(qhead) == |old(trail)| ==> r && trail == old(trail)
      ensures forall cr :: cr in ca ==> cr in old(ca) && Reordered(old(ca)[cr], ca[cr])
      ensures forall cr :: cr in old(ca) && cr !in ca ==> swept && cr in old(learnts) && TrueClause(old(ca)[cr])
      ensures swept ==> r && forall cr :: cr in learnts ==> cr in ca && !TrueClause(ca[cr])
    {
      hide ReasonsOk, ClausesOk, WatchesLazy, PropagatedTo, Sound, Wf, Covered, RefsBelow, LevelsBound, Follows, TrueClause,
        Conflict, Entails, Reordered;
      swept := false;
      var confl := PropagateReady();
      if confl.Some? {
        TopConflict(confl.value);
        ok := false;
        return false, false;
      }
      var early: bool := *;
      if early {
        return true, false;
      }
      ghost var ca1 := ca;
      RemoveSatisfied();
      forall cr | cr in old(ca) && cr !in ca ensures TrueClause(old(ca)[cr]) {
        SameTrue(old(ca)[cr], ca1[cr]);
      }
      r, swept := true, true;
    }

    /** Tidies the database between conflicts. The trail being propagated, the search never ends here. */
    method Tidy()
      requires Ready() && Assuming() && qhead == |trail|
      modifies this`ca, this`learnts, this`watches, this`assigns, this`vardata, this`trail, this`pos, this`qhead, this`ok
      ensures Ready() && Assuming() && qhead == |trail| && ok
      ensures trailLim == old(trailLim) && trail == old(trail) && |assigns| == |old(assigns)|
    {
      hide ReasonsOk, ClausesOk, WatchesLazy, PropagatedTo, Sound, Wf, Covered, RefsBelow, LevelsBound, Follows;
      if DecisionLevel() == 0 {
        var touch: bool := *;
        if touch {
          var kept, swept := Simplify();
          assert kept;
        }
      }
      var tooMany: bool := *;
      if tooMany {
        ReduceDB();
      }
    }

    /** Between conflicts: tidies the database, then opens levels up to a new decision. */
    method Branch() returns (full: bool, contradicted: bool)
      requires Ready() && Assuming() && qhead == |trail|
      modifies this`ca, this`learnts, this`watches, this`assigns, this`vardata, this`trail, this`trailLim, this`pos, this`qhead, this`ok
      ensures Ready() && Assuming() && |assigns| == |old(assigns)|
      ensures full ==> DecisionLevel() >= |assumptions| && forall v :: 0 <= v < |assigns| ==> assigns[v] != LUndef
      ensures contradicted ==> !Satisfiable(theory, assumptions)
      ensures full || contradicted ==> qhead == |trail|
      ensures !full && !contradicted ==> old(trailLim) < trailLim && |old(trail)| == trailLim[|old(trailLim)|]
    {
      hide ReasonsOk, ClausesOk, WatchesLazy, PropagatedTo, Sound, Wf, Covered, RefsBelow, LevelsBound, Follows, Satisfiable;
      full, contradicted := false, false;
      Tidy();
      var next := PlaceAssumptions();
      if next.Contradicted? {
        contradicted := true;
      } else if next.Decision? {
        Decide(next.l);
      } else {
        var decision := PickBranchLit();
        if decision.None? {
          full := true;
        } else {
          Decide(decision.value);
        }
      }
    }

    /** A conflict at level 0: the theory is refuted, and nothing on the trail counts as propagated any more. */
    method Refute(confl: CRef)
      requires ok && Running() && Stored() && WatchesLazy(ca, watches, |assigns|) && Assuming()
      requires Conflict(confl) && DecisionLevel() == 0 && qhead == |trail|
      modifies this`reallyUnsat, this`floor
      ensures Valid() && Assuming() && reallyUnsat && Entails(theory, {})
    {
      hide ReasonsOk, ClausesOk, WatchesLazy, PropagatedTo, Sound, Wf, Covered, RefsBelow, LevelsBound, Follows, Entails, Conflict;
      TopConflict(confl);
      NewFloor(theory, ca, clauses, Snap(), |trail|, assumptions);
      reallyUnsat, floor := true, |trail|;
      NothingCounts(ca, Snap());
    }

    /** One turn of the search loop: propagation, then what it leads to. */
    method SearchStep(exhausted: bool) returns (event: Event)
      requires Ready() && Assuming() && |trail| <= |assigns|
      modifies this`ca, this`nextRef, this`learnts, this`watches, this`assigns, this`vardata, this`trail, this`trailLim,
        this`pos, this`qhead, this`seen, this`analyzeToclear, this`reallyUnsat, this`floor, this`ok
      ensures Valid() && Assuming() && |assigns| == old(|assigns|) && |trail| <= |assigns|
      ensures ok
      ensures event == AtTop ==> reallyUnsat && DecisionLevel() == 0 && qhead == |trail| && !Satisfiable(theory, assumptions)
      ensures event != AtTop ==> Ready()
      ensures event == GaveUp ==> exhausted && qhead == |trail|
      ensures event == FullTrail ==> qhead == |trail| && DecisionLevel() >= |assumptions| && forall v :: 0 <= v < |assigns| ==> assigns[v] != LUndef
      ensures event == Refused ==> qhead == |trail| && !Satisfiable(theory, assumptions)
      ensures event == Backjumped ==> |trailLim| < |old(trailLim)|
      ensures event == Decided ==> !exhausted
      ensures event == Backjumped || event == Decided ==>
        Rank(old(trailLim), |old(trail)|, |assumptions|, |assigns|) < Rank(trailLim, |trail|, |assumptions|, |assigns|)
    {
      hide ReasonsOk, ClausesOk, WatchesLazy, PropagatedTo, Sound, Wf, Covered, RefsBelow, LevelsBound, Follows, Satisfiable, Conflict, Entails, Rank;
      ghost var lim0, len0, a, n := trailLim, |trail|, |assumptions|, |assigns|;
      var confl := PropagateReady();
      if confl.Some? {
        if DecisionLevel() == 0 {
          Refute(confl.value);
          Refuted(assumptions);
          TrailShort(Snap());
          return AtTop;
        }
        var _ := HandleConflict(confl.value);
        TrailShort(Snap());
        RankBacktrack(lim0, len0, |trailLim|, |trail|, a, n);
        return Backjumped;
      }
      if exhausted {
        GiveUp();
        TrailShort(Snap());
        return GaveUp;
      }
      event := BranchOn(lim0, len0);
    }

    /** The end of a turn without conflict. */
    method BranchOn(ghost lim0: seq<nat>, ghost len0: nat) returns (event: Event)
      requires Ready() && Assuming() && qhead == |trail| && trailLim == lim0 && len0 <= |trail| && LevelsBound(lim0, len0, |assumptions|)
      modifies this`ca, this`learnts, this`watches, this`assigns, this`vardata, this`trail, this`trailLim, this`pos, this`qhead, this`ok
      ensures Ready() && Assuming() && |assigns| == |old(assigns)| && |trail| <= |assigns|
      ensures event == FullTrail || event == Refused || event == Decided
      ensures event == FullTrail ==> qhead == |trail| && DecisionLevel() >= |assumptions| && forall v :: 0 <= v < |assigns| ==> assigns[v] != LUndef
      ensures event == Refused ==> qhead == |trail| && !Satisfiable(theory, assumptions)
      ensures event == Decided ==> len0 <= |assigns| && Rank(lim0, len0, |assumptions|, |assigns|) < Rank(trailLim, |trail|, |assumptions|, |assigns|)
    {
      hide ReasonsOk, ClausesOk, WatchesLazy, PropagatedTo, Sound, Wf, Covered, RefsBelow, LevelsBound, Follows, Satisfiable, Rank;
      TrailShort(Snap());
      var full, contradicted := Branch();
      TrailShort(Snap());
      if full {
        event := FullTrail;
      } else if contradicted {
        event := Refused;
      } else {
        RankDecide(lim0, len0, trailLim, |trail|, |assumptions|, |assigns|);
        event := Decided;
      }
    }

    /** Searches for a model of the theory and the assumptions. A budget of conflicts that is not
        negative is only tested between conflicts: it may be passed, but by no more than the number of levels. */
    method Search(nofConflicts: int) returns (status: LBool, ghost conflicts: nat)
      requires Ready() && Assuming()
      modifies this`ca, this`nextRef, this`learnts, this`watches, this`assigns, this`vardata, this`trail, this`trailLim,
        this`pos, this`qhead, this`seen, this`analyzeToclear, this`reallyUnsat, this`floor, this`ok
      ensures Valid() && ok && Assuming() && |assigns| == old(|assigns|) && qhead == |trail|
      ensures reallyUnsat ==> status == LFalse && DecisionLevel() == 0
      ensures status == LTrue ==> DecisionLevel() >= |assumptions| && forall v :: 0 <= v < |assigns| ==> assigns[v] != LUndef
      ensures status == LFalse ==> !Satisfiable(theory, assumptions)
      ensures status == LUndef ==> 0 <= nofConflicts <= conflicts
      ensures conflicts <= RankLimit(|assumptions|, |assigns|) && (status == LUndef ==> conflicts < RankLimit(|assumptions|, |assigns|))
      ensures nofConflicts >= 0 ==> conflicts <= nofConflicts + |assumptions| + |assigns| + 1
    {
      hide Sound, Wf, Covered, RefsBelow, LevelsBound, Follows, Satisfiable, Entails, Rank, RankLimit, Valid, Ready, Assuming;
      var conflictC := 0;
      conflicts := 0;
      ghost var a, n := |assumptions|, |assigns|;
      SearchFacts();
      LevelCount(trailLim, |trail|, a);
      while true
        invariant Ready() && Assuming() && |assigns| == n && |assumptions| == a && |trail| <= n && LevelsBound(trailLim, |trail|, a)
        invariant conflictC == conflicts <= Rank(trailLim, |trail|, a, n) && !reallyUnsat
        invariant 0 <= nofConflicts <= conflictC ==> conflictC + |trailLim| <= nofConflicts + a + n
        decreases RankLimit(a, n) - Rank(trailLim, |trail|, a, n)
      {
        RankBound(trailLim, |trail|, a, n);
        LevelCount(trailLim, |trail|, a);
        var event := SearchStep(nofConflicts >= 0 && conflictC >= nofConflicts);
        SearchFacts();
        match event {
          case AtTop =>
            conflicts := conflicts + 1;
            return LFalse, conflicts;
          case GaveUp => return LUndef, conflicts;
          case FullTrail => return LTrue, conflicts;
          case Refused => return LFalse, conflicts;
          case Backjumped =>
            conflictC := conflictC + 1;
            conflicts := conflictC;
          case Decided =>
        }
        RankBound(trailLim, |trail|, a, n);
        LevelCount(trailLim, |trail|, a);
      }
    }

    /** What the loop needs to know of its states. */
    lemma SearchFacts()
      requires (Ready() || Valid()) && Assuming()
      ensures Valid() && LevelsBound(trailLim, |trail|, |assumptions|) && |trail| <= |assigns|
      ensures Ready() ==> ok && !reallyUnsat
    {
      hide ReasonsOk, ClausesOk, WatchesLazy, PropagatedTo, Sound, Wf, Covered, RefsBelow, LevelsBound, Follows, Entails;
      TrailShort(Snap());
    }

    /** Returns to the last assumption level. */
    method GiveUp()
      requires Ready() && Assuming() && qhead == |trail|
      modifies this`assigns, this`trail, this`trailLim, this`qhead
      ensures Ready() && Assuming() && qhead == |trail| && |assigns| == |old(assigns)|
    {
      hide ReasonsOk, ClausesOk, WatchesLazy, PropagatedTo, Sound, Wf, Covered, RefsBelow, LevelsBound, Follows;
      if DecisionLevel() > |assumptions| {
        LimFacts(Snap(), DecisionLevel() - 1);
        PropagatedDown(ca, Snap(), |trail|, trailLim[DecisionLevel() - 1]);
        Backjump(|assumptions|);
      }
    }

    // ----- solving -----

    /** The levels left open follow `prefix`. */
    ghost predicate Retained(prefix: seq<Lit>)
      reads this
    {
      DecisionLevel() <= |prefix| && Follows(Snap(), prefix) && LevelsBound(trailLim, |trail|, |prefix|)
    }

    /** The state between two public calls: levels left open belong to the last assumptions. */
    ghost predicate Idle()
      reads this
    {
      Valid() && (!ok || reallyUnsat ==> DecisionLevel() == 0) && Retained(assumptions)
    }

    lemma RetainedMore(prefix: seq<Lit>, more: seq<Lit>)
      requires Wf(Snap()) && Retained(prefix) && prefix <= more
      ensures Retained(more) && Follows(Snap(), more) && LevelsBound(trailLim, |trail|, |more|)
    {
      SamePrefixFollows(Snap(), prefix, more);
    }

    lemma RetainedFewer(prefix: seq<Lit>)
      requires Wf(Snap()) && Follows(Snap(), assumptions) && LevelsBound(trailLim, |trail|, |assumptions|)
      requires prefix <= assumptions && DecisionLevel() <= |prefix|
      ensures Retained(prefix)
    {
      SamePrefixFollows(Snap(), assumptions, prefix);
    }

    lemma RetainedAtTop(a: seq<Lit>)
      requires Wf(Snap()) && DecisionLevel() == 0
      ensures Retained(a)
    {
      forall i | 0 <= i < |trail| ensures vardata[trail[i].v].level == 0 {
        assert LevelFits(Snap(), i, vardata[trail[i].v].level);
      }
    }

    /** A restart whose conflict limit exceeds the length of any search. */
    lemma LastRestart(e: nat) returns (last: nat)
      ensures BlockEnd(last, e)
    {
      PowPositive(2, e);
      last := Pow(2, e + 1) - 2;
    }

    /** Reverts to `level`, whatever the state of the search. */
    method BackTo(level: nat)
      requires Valid() && Follows(Snap(), assumptions) && LevelsBound(trailLim, |trail|, |assumptions|)
      requires !ok || reallyUnsat ==> DecisionLevel() == 0
      modifies this`assigns, this`trail, this`trailLim, this`qhead
      ensures Valid() && DecisionLevel() <= level && |assigns| == |old(assigns)| && (!ok || reallyUnsat ==> DecisionLevel() == 0)
      ensures Follows(Snap(), assumptions) && LevelsBound(trailLim, |trail|, |assumptions|)
      ensures old(DecisionLevel()) > level ==> DecisionLevel() == level && qhead == |trail|
      ensures old(DecisionLevel()) <= level ==> Snap() == old(Snap()) && qhead == old(qhead)
    {
      hide ReasonsOk, ClausesOk, WatchesLazy, PropagatedTo, Sound, Wf, Covered, RefsBelow, LevelsBound, Follows, CancelTo, Entails;
      if DecisionLevel() > level {
        PropagatedDown(ca, Snap(), qhead, trailLim[DecisionLevel() - 1]);
        Backjump(level);
      }
    }

    /** Copies the values of a full trail. */
    method ExtractModel()
      requires Valid() && ok && !reallyUnsat && qhead == |trail|
      requires Follows(Snap(), assumptions) && DecisionLevel() >= |assumptions|
      requires forall v :: 0 <= v < |assigns| ==> assigns[v] != LUndef
      modifies this`model
      ensures |model| == |assigns| && Models(model, theory, assumptions)
    {
      model := seq(|assigns|, v requires 0 <= v < |assigns| reads this => assigns[v] != LFalse);
      hide Models;
      FullTrailModels(theory, ca, clauses, Snap(), assumptions, model);
    }

    /** Searches with restarts that follow the Luby sequence, until there is an answer. */
    method SearchUntilDecided() returns (result: LBool)
      requires Ready() && Assuming()
      modifies this`ca, this`nextRef, this`learnts, this`watches, this`assigns, this`vardata, this`trail, this`trailLim,
        this`pos, this`qhead, this`seen, this`analyzeToclear, this`reallyUnsat, this`floor, this`ok
      ensures Valid() && ok && Assuming() && |assigns| == |old(assigns)| && result != LUndef
      ensures reallyUnsat ==> result == LFalse && DecisionLevel() == 0
      ensures result == LTrue ==> qhead == |trail| && DecisionLevel() >= |assumptions| && forall v :: 0 <= v < |assigns| ==> assigns[v] != LUndef
      ensures result == LFalse ==> !Satisfiable(theory, assumptions)
    {
      hide ReasonsOk, ClausesOk, WatchesLazy, PropagatedTo, Sound, Wf, Covered, RefsBelow, LevelsBound, Follows, Satisfiable, Entails, RankLimit, BlockEnd;
      result := LUndef;
      var restarts := 0;
      ghost var e := RankLimit(|assumptions|, |assigns|);
      ghost var last := LastRestart(e);
      while result == LUndef
        invariant Valid() && ok && |assigns| == |old(assigns)| && Assuming()
        invariant reallyUnsat ==> result == LFalse && DecisionLevel() == 0
        invariant result == LTrue ==> qhead == |trail| && DecisionLevel() >= |assumptions| && forall v :: 0 <= v < |assigns| ==> assigns[v] != LUndef
        invariant result == LFalse ==> !Satisfiable(theory, assumptions)
        invariant result == LUndef ==> restarts <= last
        decreases last as int - restarts, result == LUndef
      {
        var base := Luby(restarts);
        if restarts == last { PowGrows(e); }
        ghost var conflicts;
        result, conflicts := Search(base * 100);
        restarts := restarts + 1;
      }
    }

    /** Solves under the assumptions, keeping the levels of the first `limitRestart` of them open
        afterwards. */
    method SolveLimited(limitRestart: nat) returns (status: bool)
      requires Valid() && limitRestart <= |assumptions|
      requires (!ok || reallyUnsat ==> DecisionLevel() == 0) && Retained(assumptions[..limitRestart])
      modifies this`ca, this`nextRef, this`learnts, this`watches, this`assigns, this`vardata, this`trail, this`trailLim,
        this`pos, this`qhead, this`seen, this`analyzeToclear, this`reallyUnsat, this`floor, this`ok, this`model
      ensures Valid() && |assigns| == |old(assigns)| && (!ok || reallyUnsat ==> DecisionLevel() == 0)
      ensures ok == old(ok)
      ensures Retained(assumptions[..limitRestart])
      ensures status ==> |model| == |assigns| && Models(model, theory, assumptions)
      ensures !status ==> !Satisfiable(theory, assumptions) && model == []
    {
      hide ReasonsOk, ClausesOk, WatchesLazy, PropagatedTo, Sound, Wf, Covered, RefsBelow, LevelsBound, Follows, Satisfiable, Entails, Models;
      model := [];
      if !ok || reallyUnsat {
        Refuted(assumptions);
        return false;
      }
      status := SearchAnswer(limitRestart);
    }

    /** The part of `SolveLimited` after the solver is known not to be refuted. */
    method SearchAnswer(limitRestart: nat) returns (status: bool)
      requires Valid() && ok && !reallyUnsat && limitRestart <= |assumptions| && Retained(assumptions[..limitRestart]) && model == []
      modifies this`ca, this`nextRef, this`learnts, this`watches, this`assigns, this`vardata, this`trail, this`trailLim,
        this`pos, this`qhead, this`seen, this`analyzeToclear, this`reallyUnsat, this`floor, this`ok, this`model
      ensures Valid() && |assigns| == |old(assigns)| && (!ok || reallyUnsat ==> DecisionLevel() == 0)
      ensures ok
      ensures Retained(assumptions[..limitRestart])
      ensures status ==> |model| == |assigns| && Models(model, theory, assumptions)
      ensures !status ==> !Satisfiable(theory, assumptions) && model == []
    {
      hide ReasonsOk, ClausesOk, WatchesLazy, PropagatedTo, Sound, Wf, Covered, RefsBelow, LevelsBound, Follows, Satisfiable, Entails, Models;
      RetainedMore(assumptions[..limitRestart], assumptions);
      var result := SearchUntilDecided();
      status := result == LTrue;
      if status {
        ExtractModel();
      }
      BackTo(limitRestart);
      RetainedFewer(assumptions[..limitRestart]);
    }

    /** Solves under assumptions, leaving no level open. */
    method Solve(assumps: seq<Lit>) returns (status: bool)
      requires Idle() && forall l :: l in assumps ==> l.v < |assigns|
      modifies this`ca, this`nextRef, this`learnts, this`watches, this`assigns, this`vardata, this`trail, this`trailLim,
        this`pos, this`qhead, this`seen, this`analyzeToclear, this`reallyUnsat, this`floor, this`ok, this`model, this`assumptions
      ensures Idle() && |assigns| == |old(assigns)| && DecisionLevel() == 0
      ensures ok == old(ok)
      ensures status <==> Satisfiable(theory, assumps)
      ensures status ==> |model| == |assigns| && Models(model, theory, assumps)
    {
      hide ReasonsOk, ClausesOk, WatchesLazy, PropagatedTo, Sound, Wf, Covered, RefsBelow, LevelsBound, Follows, Models;
      Reset();
      RetainedAtTop(assumps[..0]);
      assumptions := assumps;
      status := SolveLimited(0);
      RetainedAtTop(assumptions);
      if status { ModelsSatisfy(model, theory, assumps); }
    }

    /** Solves under the assumptions `prefix` followed by `assumps`, keeping the levels of `prefix` open. */
    method SolveAfter(assumps: seq<Lit>, prefix: seq<Lit>) returns (status: bool)
      requires Idle() && Retained(prefix)
      requires (forall l :: l in assumps ==> l.v < |assigns|) && (forall l :: l in prefix ==> l.v < |assigns|)
      modifies this`ca, this`nextRef, this`learnts, this`watches, this`assigns, this`vardata, this`trail, this`trailLim,
        this`pos, this`qhead, this`seen, this`analyzeToclear, this`reallyUnsat, this`floor, this`ok, this`model, this`assumptions
      ensures Idle() && |assigns| == |old(assigns)| && Retained(prefix)
      ensures ok == old(ok)
      ensures status <==> Satisfiable(theory, prefix + assumps)
      ensures status ==> |model| == |assigns| && Models(model, theory, prefix + assumps)
    {
      hide ReasonsOk, ClausesOk, WatchesLazy, PropagatedTo, Sound, Wf, Covered, RefsBelow, LevelsBound, Follows, Models;
      assumptions := prefix + assumps;
      assert assumptions[..|prefix|] == prefix;
      status := SolveLimited(|prefix|);
      RetainedMore(prefix, assumptions);
      if status { ModelsSatisfy(model, theory, prefix + assumps); }
    }

    /** Closes all levels. */
    method Reset()
      requires Idle()
      modifies this`assigns, this`trail, this`trailLim, this`qhead
      ensures Idle() && DecisionLevel() == 0 && |assigns| == |old(assigns)|
    {
      hide ReasonsOk, ClausesOk, WatchesLazy, PropagatedTo, Sound, Wf, Covered, RefsBelow, LevelsBound, Follows, Entails;
      BackTo(0);
      RetainedAtTop(assumptions);
    }

    /** At level 0 any assumptions may come next. */
    lemma NothingRetained(prefix: seq<Lit>)
      requires Idle() && DecisionLevel() == 0
      ensures Retained(prefix)
    {
      hide ReasonsOk, ClausesOk, WatchesLazy, PropagatedTo, Sound, Wf, Covered, RefsBelow, LevelsBound, Follows, Entails;
      RetainedAtTop(prefix);
    }

    lemma StillRetained(prefix: seq<Lit>, more: seq<Lit>)
      requires Idle() && Retained(prefix) && prefix <= more
      ensures Retained(more)
    {
      hide ReasonsOk, ClausesOk, WatchesLazy, PropagatedTo, Sound, Wf, Covered, RefsBelow, LevelsBound, Follows, Entails;
      RetainedMore(prefix, more);
    }

    /** A literal with a value at level 0 has it in every model of the theory. */
    lemma TopValue(l: Lit)
      requires Idle() && DecisionLevel() == 0 && l.v < |assigns|
      ensures Value(l) == LTrue ==> Entails(theory, {l})
      ensures Value(l) == LFalse ==> Entails(theory, {l.Not()})
    {
      hide ReasonsOk, ClausesOk, WatchesLazy, PropagatedTo, Wf, Covered, RefsBelow, LevelsBound, Follows, Entails;
      if Value(l) == LTrue { LevelBound(Snap(), l); assert TopTrue(Snap(), l); }
      if Value(l) == LFalse { LevelBound(Snap(), l); assert TopTrue(Snap(), l.Not()); }
    }

    // ----- building the problem -----

    constructor ()
      ensures Idle() && ok && !reallyUnsat && DecisionLevel() == 0 && assigns == [] && theory == {} && Given(ca, Snap(), {})
    {
      ca, nextRef, clauses, learnts, watches := map[], 0, [], [], map[];
      assumptions, model, ok, reallyUnsat, floor := [], [], true, false, 0;
      assigns, vardata, trail, trailLim, qhead, pos := [], [], [], [], 0, [];
      seen, analyzeToclear, theory := [], [], {};
      new;
      hide Idle, Given;
      FreshIdle();
      NothingGiven(Snap());
    }

    /** A solver without variables. */
    lemma FreshIdle()
      requires ca == map[] && nextRef == 0 && clauses == [] && learnts == [] && watches == map[] && assumptions == []
      requires ok && !reallyUnsat && floor == 0 && assigns == [] && vardata == [] && trail == [] && trailLim == [] && qhead == 0 && pos == []
      requires seen == [] && theory == {}
      ensures Idle()
    {
      hide ReasonsOk, ClausesOk, WatchesLazy, PropagatedTo, Sound, Wf, Covered, RefsBelow, Follows, LevelsBound, Entails;
      EmptyState();
      RetainedAtTop([]);
    }

    /** Declares a new variable. */
    method NewVar() returns (v: nat)
      requires Idle() && DecisionLevel() == 0
      modifies this`assigns, this`vardata, this`pos, this`seen, this`watches
      ensures Idle() && DecisionLevel() == 0 && v == |old(assigns)| && |assigns| == |old(assigns)| + 1
      ensures assigns[..v] == old(assigns)
      ensures GrowsBy(old(ca), old(Snap()), ca, Snap(), {})
    {
      hide GrowsBy, ReasonsOk, ClausesOk, WatchesLazy, PropagatedTo, Sound, Wf, Covered, RefsBelow, Entails, LevelsBound, Follows;
      v := |assigns|;
      GrowState(theory, ca, clauses, Snap(), qhead, ok);
      GrowWatches(ca, watches, v, nextRef);
      VarGrows(ca, Snap());
      GrowFields();
      RetainedAtTop(assumptions);
    }

    /** One more entry in every vector, and two empty watcher lists. */
    method GrowFields()
      modifies this`assigns, this`vardata, this`pos, this`seen, this`watches
      ensures assigns == old(assigns) + [LUndef] && vardata == old(vardata) + [VarData(None, 0)]
      ensures pos == old(pos) + [0] && seen == old(seen) + [false]
      ensures watches == old(watches)[Lit(|old(assigns)|, false) := []][Lit(|old(assigns)|, true) := []]
    {
      var v := |assigns|;
      assigns := assigns + [LUndef];
      vardata := vardata + [VarData(None, 0)];
      pos := pos + [0];
      seen := seen + [false];
      watches := watches[Lit(v, false) := []][Lit(v, true) := []];
    }

    /** Removes false and repeated literals of a sorted clause; `done` when it is satisfied or a tautology. */
    method Normalise(ps: Clause) returns (done: bool, out: Clause)
      requires LitsSorted(ps) && forall k :: 0 <= k < |ps| ==> ps[k].v < |assigns|
      ensures done ==> exists l :: l in ps && (IsTrue(Snap(), l) || l.Not() in ps)
      ensures !done ==> DistinctVars(out) && Lits(out) <= Lits(ps)
      ensures !done ==> forall l :: l in ps ==> l in out || IsFalse(Snap(), l)
      ensures !done ==> forall l :: l in out ==> l.v < |assigns| && assigns[l.v] == LUndef
    {
      hide LitsSorted, NormalisedTo;
      out, done := [], false;
      var i := 0;
      StartNormalise(Snap(), ps);
      while i < |ps|
        invariant 0 <= i <= |ps| && NormalisedTo(Snap(), ps, i, out)
      {
        var l := ps[i];
        if Value(l) == LTrue {
          assert l in ps && IsTrue(Snap(), l);
          return true, out;
        }
        if |out| > 0 && l == out[|out| - 1].Not() {
          NormaliseLast(Snap(), ps, i, out);
          assert l in ps && l.Not() in ps;
          return true, out;
        }
        if Value(l) != LFalse && !(|out| > 0 && out[|out| - 1] == l) {
          NormalisePush(Snap(), ps, i, out);
          out := out + [l];
        } else {
          NormaliseSkip(Snap(), ps, i, out);
        }
        i := i + 1;
      }
      Normalised(Snap(), ps, out);
    }

    /** The theory grows by a clause that is covered. */
    lemma TheoryReady(c: set<Lit>, ca': map<CRef, Clause>, clauses': seq<CRef>)
      requires Sound(theory, ca, Snap()) && Covered(theory, ca, clauses, Snap())
      requires forall cr :: cr in ca' ==> (cr in ca && ca'[cr] == ca[cr]) || Entails(theory + {c}, Lits(ca'[cr]))
      requires forall cr :: cr in ca ==> cr in ca' && ca'[cr] == ca[cr]
      requires forall cr :: cr in clauses ==> cr in clauses'
      requires ClauseCovered(c, ca', clauses', Snap())
      ensures Sound(theory + {c}, ca', Snap()) && Covered(theory + {c}, ca', clauses', Snap())
    {
      hide Entails, ClauseCovered;
      forall cr | cr in ca' ensures Entails(theory + {c}, Lits(ca'[cr])) {
        if cr in ca { EntailsMore(theory, c, Lits(ca[cr])); }
      }
      forall l | TopTrue(Snap(), l) ensures Entails(theory + {c}, {l}) { EntailsMore(theory, c, {l}); }
      CoveredGrows(theory, ca, ca', clauses, clauses', Snap(), Snap());
    }

    /** The literals left of a clause by `Normalise` are a consequence of it. */
    lemma NormalisedEntailed(c: set<Lit>, out: set<Lit>)
      requires Wf(Snap()) && DecisionLevel() == 0 && Sound(theory, ca, Snap())
      requires forall l :: l in c ==> l in out || IsFalse(Snap(), l)
      ensures Entails(theory + {c}, out)
      ensures forall l :: l in c && l !in out ==> TopFalse(Snap(), l)
    {
      assert Entails(theory + {c}, c);
      forall l | l in c ensures l in out || (TopFalse(Snap(), l) && Entails(theory + {c}, {l.Not()})) {
        if l !in out {
          LevelBound(Snap(), l);
          TopFalseEntailed(theory, ca, Snap(), l);
          EntailsMore(theory, c, {l.Not()});
        }
      }
      EntailsDrop(theory + {c}, c, out);
    }

    /** Adds a problem clause at level 0. The result tells whether the theory may still be satisfiable. */
    method AddClause(ps0: Clause) returns (r: bool)
      requires Idle() && DecisionLevel() == 0 && forall l :: l in ps0 ==> l.v < |assigns|
      modifies this`ca, this`nextRef, this`clauses, this`watches, this`assigns, this`vardata, this`trail,
        this`pos, this`qhead, this`ok, this`theory
      ensures Idle() && DecisionLevel() == 0 && |assigns| == |old(assigns)|
      ensures theory == old(theory) + {Lits(ps0)} && (r <==> ok)
      ensures GrowsBy(old(ca), old(Snap()), ca, Snap(), {Lits(ps0)})
      ensures old(ok) && !ok ==> Lits(ps0) == {} || Clashes(old(ca), old(Snap()), {Lits(ps0)})
    {
      hide GrowsBy, ReasonsOk, ClausesOk, WatchesLazy, PropagatedTo, Wf, Covered, RefsBelow, Entails, Sound, LitsSorted, LevelsBound, Follows;
      RetainedAtTop(assumptions);
      r := AddAtTop(ps0);
      RetainedAtTop(assumptions);
    }

    method AddAtTop(ps0: Clause) returns (r: bool)
      requires Valid() && DecisionLevel() == 0 && forall l :: l in ps0 ==> l.v < |assigns|
      modifies this`ca, this`nextRef, this`clauses, this`watches, this`assigns, this`vardata, this`trail,
        this`pos, this`qhead, this`ok, this`theory
      ensures Valid() && DecisionLevel() == 0 && |assigns| == |old(assigns)|
      ensures theory == old(theory) + {Lits(ps0)} && (r <==> ok)
      ensures GrowsBy(old(ca), old(Snap()), ca, Snap(), {Lits(ps0)})
      ensures old(ok) && !ok ==> Lits(ps0) == {} || Clashes(old(ca), old(Snap()), {Lits(ps0)})
    {
      hide GrowsBy, ReasonsOk, ClausesOk, WatchesLazy, PropagatedTo, Wf, Covered, RefsBelow, Entails, Sound, LitsSorted;
      GrowsRefl(ca, Snap(), {Lits(ps0)});
      if !ok {
        AddIgnored(Lits(ps0));
        return false;
      }
      SortedSame(ps0);
      var ps := SortLits(ps0);
      assert forall k :: 0 <= k < |ps| ==> ps[k] in Lits(ps);
      var done, out := Normalise(ps);
      if done {
        AddSatisfied(Lits(ps0));
        return true;
      }
      AddNormalised(Lits(ps0), out);
      r := ok;
    }

    /** Adds what is left of the clause `c`, by the number of its literals. */
    method AddNormalised(ghost c: set<Lit>, out: Clause)
      requires Valid() && ok && DecisionLevel() == 0 && DistinctVars(out) && Lits(out) <= c
      requires forall l :: l in c ==> l in out || IsFalse(Snap(), l)
      requires forall l :: l in out ==> l.v < |assigns| && assigns[l.v] == LUndef
      modifies this`ca, this`nextRef, this`clauses, this`watches, this`assigns, this`vardata, this`trail,
        this`pos, this`qhead, this`ok, this`theory
      ensures Valid() && DecisionLevel() == 0 && |assigns| == |old(assigns)| && theory == old(theory) + {c}
      ensures GrowsBy(old(ca), old(Snap()), ca, Snap(), {c})
      ensures !ok ==> c == {} || Clashes(old(ca), old(Snap()), {c})
    {
      hide GrowsBy, ReasonsOk, ClausesOk, WatchesLazy, PropagatedTo, Wf, Covered, RefsBelow, Entails, Sound, Clashes;
      GrowsRefl(ca, Snap(), {c});
      if |out| == 0 {
        AddRefuting(c);
      } else if |out| == 1 {
        assert out[0] in Lits(out);
        AddUnit(c, out[0]);
      } else {
        AddStored(c, out);
      }
    }

    ghost method AddIgnored(c: set<Lit>)
      requires Valid() && !ok
      modifies this`theory
      ensures Valid() && theory == old(theory) + {c}
    {
      hide ReasonsOk, ClausesOk, WatchesLazy, PropagatedTo, Wf, Covered, RefsBelow, Entails;
      forall cr | cr in ca ensures Entails(theory + {c}, Lits(ca[cr])) { EntailsMore(theory, c, Lits(ca[cr])); }
      forall l | TopTrue(Snap(), l) ensures Entails(theory + {c}, {l}) { EntailsMore(theory, c, {l}); }
      EntailsMore(theory, c, {});
      theory := theory + {c};
    }

    /** A clause satisfied at level 0, or a tautology, is not stored. */
    ghost method AddSatisfied(c: set<Lit>)
      requires Valid() && ok && DecisionLevel() == 0
      requires exists l :: l in c && (IsTrue(Snap(), l) || l.Not() in c)
      modifies this`theory
      ensures Valid() && theory == old(theory) + {c}
    {
      hide ReasonsOk, ClausesOk, WatchesLazy, PropagatedTo, Wf, Covered, RefsBelow, Sound, Entails;
      var l :| l in c && (IsTrue(Snap(), l) || l.Not() in c);
      if IsTrue(Snap(), l) { LevelBound(Snap(), l); assert TopTrue(Snap(), l); }
      TheoryReady(c, ca, clauses);
      if reallyUnsat { EntailsMore(theory, c, {}); }
      theory := theory + {c};
    }

    /** All literals of the clause are false at level 0. */
    method AddRefuting(ghost c: set<Lit>)
      requires Valid() && ok && DecisionLevel() == 0 && forall l :: l in c ==> IsFalse(Snap(), l)
      modifies this`theory, this`ok
      ensures Valid() && theory == old(theory) + {c} && !ok
      ensures c == {} || Clashes(ca, Snap(), {c})
    {
      hide ReasonsOk, ClausesOk, WatchesLazy, PropagatedTo, Wf, Covered, RefsBelow, Entails, Clashes;
      if c != {} { FalseClash(ca, Snap(), c); }
      NormalisedEntailed(c, {});
      forall cr | cr in ca ensures Entails(theory + {c}, Lits(ca[cr])) { EntailsMore(theory, c, Lits(ca[cr])); }
      forall l | TopTrue(Snap(), l) ensures Entails(theory + {c}, {l}) { EntailsMore(theory, c, {l}); }
      theory := theory + {c};
      ok := false;
    }

    /** One literal is left: enqueue it and propagate. */
    method AddUnit(ghost c: set<Lit>, l: Lit)
      requires Valid() && ok && DecisionLevel() == 0 && l in c && l.v < |assigns| && assigns[l.v] == LUndef
      requires forall q :: q in c ==> q == l || IsFalse(Snap(), q)
      modifies this`theory, this`ok, this`ca, this`watches, this`assigns, this`vardata, this`trail, this`pos, this`qhead
      ensures Valid() && theory == old(theory) + {c} && |assigns| == |old(assigns)| && DecisionLevel() == 0
      ensures GrowsBy(old(ca), old(Snap()), ca, Snap(), {c})
      ensures !ok ==> Clashes(old(ca), old(Snap()), {c})
    {
      hide Clashes, GrowsBy, ReasonsOk, ClausesOk, WatchesLazy, PropagatedTo, Wf, Covered, RefsBelow, Entails, Sound, Conflict, Follows, LevelsBound;
      ghost var ca0, t0 := ca, Snap();
      EnqueueNew(c, l);
      ghost var t1 := Snap();
      RunningWf();
      var confl := PropagateStored();
      PropagationGrows(ca0, t1, ca, Snap());
      GrowsTrans(ca0, t0, ca0, t1, ca, Snap(), {c}, {});
      assert {c} + {} == {c};
      if confl.Some? {
        TopConflict(confl.value);
        ConflictNow(confl.value, {});
        ClashesBefore(ca0, t0, ca, Snap(), {c});
        ok := false;
      }
    }

    /** Enqueues the only literal of a new clause that has no value. */
    method EnqueueNew(ghost c: set<Lit>, l: Lit)
      requires Valid() && ok && DecisionLevel() == 0 && l in c && l.v < |assigns| && assigns[l.v] == LUndef
      requires forall q :: q in c ==> q == l || IsFalse(Snap(), q)
      modifies this`theory, this`assigns, this`vardata, this`trail, this`pos
      ensures Valid() && ok && theory == old(theory) + {c} && |assigns| == |old(assigns)|
      ensures GrowsBy(old(ca), old(Snap()), ca, Snap(), {c})
    {
      hide GrowsBy, ReasonsOk, ClausesOk, WatchesLazy, PropagatedTo, Wf, Covered, RefsBelow, Entails, Sound;
      ghost var t, t' := Snap(), Enq(Snap(), l, None);
      EnqReadyNew(c, l);
      EnqGrows(ca, Snap(), l, c);
      if reallyUnsat { EntailsMore(theory, c, {}); }
      theory := theory + {c};
      UncheckedEnqueue(l, None);
    }

    lemma EnqReadyNew(c: set<Lit>, l: Lit)
      requires Settled() && DecisionLevel() == 0 && l in c && l.v < |assigns| && assigns[l.v] == LUndef
      requires forall q :: q in c ==> q == l || IsFalse(Snap(), q)
      ensures var t' := Enq(Snap(), l, None);
        && ReasonsOk(ca, t') && Wf(t') && PropagatedTo(ca, t', qhead)
        && Sound(theory + {c}, ca, t') && Covered(theory + {c}, ca, clauses, t')
    {
      hide ReasonsOk, ClausesOk, WatchesLazy, PropagatedTo, Wf, RefsBelow, Entails, Covered;
      var t, t' := Snap(), Enq(Snap(), l, None);
      NormalisedEntailed(c, {l});
      forall cr | cr in ca ensures Entails(theory + {c}, Lits(ca[cr])) { EntailsMore(theory, c, Lits(ca[cr])); }
      forall q | TopTrue(t, q) ensures Entails(theory + {c}, {q}) { EntailsMore(theory, c, {q}); }
      EnqWf(t, l, None);
      EnqReasons(ca, t, l, None);
      EnqSound(theory + {c}, ca, t, l, None);
      EnqCovered(theory, ca, clauses, t, l, None);
      NoExemption(ca, t, qhead, l);
      EnqPropagated(ca, t, l, None, qhead, l, []);
      NoExemption(ca, t', qhead, l);
      assert TopTrue(t', l);
      CoveredOneMore(theory, ca, clauses, t', c);
    }

    /** Two or more unassigned literals are left: store them as a clause. */
    method AddStored(ghost c: set<Lit>, out: Clause)
      requires Settled() && DecisionLevel() == 0 && |out| >= 2 && DistinctVars(out) && Lits(out) <= c
      requires forall l :: l in out ==> l.v < |assigns| && assigns[l.v] == LUndef
      requires forall l :: l in c ==> l in out || IsFalse(Snap(), l)
      modifies this`theory, this`ca, this`nextRef, this`clauses, this`watches
      ensures Settled() && theory == old(theory) + {c} && (Entails(old(theory), {}) ==> Entails(theory, {}))
      ensures GrowsBy(old(ca), old(Snap()), ca, Snap(), {c})
    {
      hide GrowsBy, ReasonsOk, ClausesOk, WatchesLazy, PropagatedTo, Wf, Covered, RefsBelow, Entails, Sound, Attach, DistinctVars, IsFalse, Lits;
      var cr := nextRef;
      AddReady(c, out, cr);
      StoreGrows(ca, Snap(), cr, out, c);
      StoreAt(cr, out);
      clauses := clauses + [cr];
      theory := theory + {c};
    }

    lemma AddReady(c: set<Lit>, out: Clause, cr: CRef)
      requires Settled() && DecisionLevel() == 0 && |out| >= 2 && DistinctVars(out) && Lits(out) <= c && cr == nextRef
      requires forall l :: l in out ==> l.v < |assigns| && assigns[l.v] == LUndef
      requires forall l :: l in c ==> l in out || IsFalse(Snap(), l)
      ensures out[0].Not() in watches && out[1].Not() in watches && cr !in ca && cr !in learnts && cr !in clauses
      ensures var ca' := ca[cr := out];
        && ReasonsOk(ca', Snap()) && ClausesOk(ca', |assigns|) && PropagatedTo(ca', Snap(), qhead)
        && Sound(theory + {c}, ca', Snap()) && Covered(theory + {c}, ca', clauses + [cr], Snap())
        && WatchesLazy(ca', Attach(watches, cr, out), |assigns|) && RefsBelow(ca', Attach(watches, cr, out), cr + 1)
      ensures Entails(theory, {}) ==> Entails(theory + {c}, {})
    {
      hide ReasonsOk, WatchesLazy, Wf, RefsBelow, Entails, Covered, Attach, Sound;
      if Entails(theory, {}) { EntailsMore(theory, c, {}); }
      var ca' := ca[cr := out];
      assert out[0] in out && out[1] in out && out[0].v != out[1].v;
      assert forall k :: 0 <= k < |out| ==> out[k].v < |assigns| by { forall k | 0 <= k < |out| ensures out[k].v < |assigns| { assert out[k] in out; } }
      CrNotIn(ca, watches, cr);
      AttachLazy(ca, watches, |assigns|, cr, out);
      AttachRefs(ca, watches, cr, out);
      MoreClausesReasons(ca, Snap(), cr, out);
      NormalisedEntailed(c, Lits(out));
      assert cr in clauses + [cr] && cr in ca';
      assert ClauseCovered(c, ca', clauses + [cr], Snap());
      TheoryReady(c, ca', clauses + [cr]);
    }

    // ----- unit propagation as a service -----

    /** The literals found by unit propagation under the assumptions. Without a conflict they are
        closed under unit resolution and decide every assumption. */
    method PropagateUnder(assumps: seq<Lit>) returns (lits: seq<Lit>, confl: bool)
      requires Valid() && DecisionLevel() == 0 && forall l :: l in assumps ==> l.v < |assigns|
      modifies this`ca, this`watches, this`assigns, this`vardata, this`trail, this`trailLim, this`pos, this`qhead, this`ok
      ensures Valid() && DecisionLevel() == 0 && |assigns| == |old(assigns)|
      ensures Forced(theory, assumps, Lits(lits))
      ensures confl ==> !Satisfiable(theory, assumps)
      ensures !confl ==> UnitClosed(theory, Lits(lits)) && forall l :: l in assumps ==> l in lits
      ensures DistinctVars(lits) && forall l :: l in lits ==> l.v < |assigns|
      ensures DerivedFrom(old(ca), old(Snap()), assumps, Lits(lits))
      ensures confl && old(ok) && !old(reallyUnsat) ==> Clashes(old(ca), old(Snap()), UnitsOf(assumps))
    {
      hide DerivedFrom, GrowsBy, SameClauses, ReasonsOk, ClausesOk, WatchesLazy, PropagatedTo, Sound, Wf, Covered, RefsBelow, Entails, Conflict, Satisfiable, Forced, UnitClosed, OnlyAssumed, Extends, DistinctVars, Clashes;
      ghost var ca0, t0 := ca, Snap();
      RunningWf();
      if !ok || reallyUnsat {
        GrowsRefl(ca, Snap(), UnitsOf(assumps));
        TrailDerived(ca, Snap(), ca, Snap(), assumps);
        Refuted(assumps);
        RefutedForced(theory, assumps, Lits(trail));
        TrailDistinct(Snap());
        return trail, true;
      }
      var top := PropagateStored();
      if top.Some? {
        GrowsRefl(ca, Snap(), UnitsOf(assumps));
        TrailDerived(ca, Snap(), ca, Snap(), assumps);
        DerivedBefore(ca0, t0, ca, Snap(), assumps, Lits(trail));
        ConflictNow(top.value, UnitsOf(assumps));
        ClashesAfter(ca0, t0, ca, Snap(), UnitsOf(assumps));
        TopConflict(top.value);
        Refuted(assumps);
        RefutedForced(theory, assumps, Lits(trail));
        ok := false;
        TrailDistinct(Snap());
        return trail, true;
      }
      ghost var ca1, t1 := ca, Snap();
      lits, confl := PropagateAbove(assumps);
      DerivedBefore(ca0, t0, ca1, t1, assumps, Lits(lits));
      if confl { ClashesAfter(ca0, t0, ca1, t1, UnitsOf(assumps)); }
    }

    /** The level-1 part of `PropagateUnder`. */
    method PropagateAbove(assumps: seq<Lit>) returns (lits: seq<Lit>, confl: bool)
      requires Ready() && DecisionLevel() == 0 && qhead == |trail| && forall l :: l in assumps ==> l.v < |assigns|
      modifies this`ca, this`watches, this`assigns, this`vardata, this`trail, this`trailLim, this`pos, this`qhead
      ensures Ready() && DecisionLevel() == 0 && |assigns| == |old(assigns)|
      ensures Forced(theory, assumps, Lits(lits))
      ensures confl ==> !Satisfiable(theory, assumps)
      ensures !confl ==> UnitClosed(theory, Lits(lits)) && forall l :: l in assumps ==> l in lits
      ensures DistinctVars(lits) && forall l :: l in lits ==> l.v < |assigns|
      ensures DerivedFrom(old(ca), old(Snap()), assumps, Lits(lits))
      ensures confl ==> Clashes(old(ca), old(Snap()), UnitsOf(assumps))
    {
      hide Clashes, DerivedFrom, GrowsBy, SameClauses, ReasonsOk, ClausesOk, WatchesLazy, PropagatedTo, Sound, Wf, Covered, RefsBelow, Conflict, Satisfiable, Forced, UnitClosed, OnlyAssumed, Extends, DistinctVars, Entails, UnitClosed, Running, Stored;
      ghost var ca0, t00 := ca, Snap();
      var clash := AssumeAll(assumps);
      ghost var t0 := Snap();
      ReadyWf();
      var under := PropagateStored();
      ExtendsFacts(t0, Snap());
      lits := trail;
      confl := clash || under.Some?;
      DerivedUnder(t0, assumps, clash, under);
      AboveDerived(ca0, t00, t0, ca, Snap(), assumps) by { RunningWf(); }
      if confl { ClashUnder(ca0, t00, t0, assumps, clash, under); }
      Revert(0);
    }

    /** A level with the assumptions that have no value. */
    method AssumeAll(assumps: seq<Lit>) returns (clash: bool)
      requires Ready() && DecisionLevel() == 0 && qhead == |trail| && forall l :: l in assumps ==> l.v < |assigns|
      modifies this`assigns, this`vardata, this`trail, this`trailLim, this`pos
      ensures Ready() && DecisionLevel() == 1 && OnlyAssumed(Snap(), assumps) && |assigns| == |old(assigns)|
      ensures clash ==> exists l :: l in assumps && IsFalse(Snap(), l)
      ensures !clash ==> forall l :: l in assumps ==> IsTrue(Snap(), l)
      ensures GrowsBy(ca, old(Snap()), ca, Snap(), UnitsOf(assumps))
    {
      hide GrowsBy, ReasonsOk, ClausesOk, WatchesLazy, PropagatedTo, Sound, Wf, Covered, RefsBelow, OnlyAssumed;
      ghost var t := Snap();
      OpenAssumed(assumps);
      LevelGrows(ca, t);
      clash := EnqueueAll(assumps);
      GrowsTrans(ca, t, ca, NewLevel(t), ca, Snap(), {}, UnitsOf(assumps));
      assert {} + UnitsOf(assumps) == UnitsOf(assumps);
    }

    lemma ConflictNow(cr: CRef, added: set<set<Lit>>)
      requires Running() && Conflict(cr)
      ensures Clashes(ca, Snap(), added)
    {
      hide ReasonsOk, Clashes, ClausesOk, Sound;
      RunningWf();
      ConflictClash(ca, Snap(), cr, added);
    }

    lemma RunningWf()
      requires Running()
      ensures Wf(Snap()) && ReasonsOk(ca, Snap())
    {
      hide Wf, ReasonsOk;
    }

    lemma ReadyWf()
      requires Ready()
      ensures Wf(Snap()) && ReasonsOk(ca, Snap()) && |Snap().assigns| == |assigns|
    {
    }

    /** What propagation above level 0 has derived. */
    lemma DerivedUnder(t0: State, assumps: seq<Lit>, clash: bool, under: Option<CRef>)
      requires ok && floor == 0 && Running() && Stored() && DecisionLevel() == 1 && qhead == |trail| && Extends(t0, Snap()) && OnlyAssumed(t0, assumps)
      requires Wf(t0) && |t0.assigns| == |assigns| && forall l :: l in assumps ==> l.v < |assigns|
      requires clash ==> exists l :: l in assumps && IsFalse(t0, l)
      requires !clash ==> forall l :: l in assumps ==> IsTrue(t0, l)
      requires under.None? ==> PropagatedTo(ca, Snap(), |trail|)
      requires under.Some? ==> Conflict(under.value) && PropagatedTo(ca, Snap(), trailLim[0])
      ensures Forced(theory, assumps, Lits(trail)) && DistinctVars(trail) && forall l :: l in trail ==> l.v < |assigns|
      ensures clash || under.Some? ==> !Satisfiable(theory, assumps)
      ensures !clash && under.None? ==> UnitClosed(theory, Lits(trail)) && forall l :: l in assumps ==> l in trail
      ensures PropagatedTo(ca, Snap(), trailLim[0])
    {
      hide ReasonsOk, ClausesOk, WatchesLazy, PropagatedTo, Sound, Wf, Covered, RefsBelow, Conflict, Satisfiable, Forced, UnitClosed, OnlyAssumed, Extends, DistinctVars;
      ExtendsAssumed(t0, Snap(), assumps);
      TrailAssumed(theory, ca, Snap(), assumps);
      TrailDistinct(Snap());
      if under.Some? {
        ConflictAll(under.value);
        ConflictRefutes(theory, ca, Snap(), assumps, under.value);
      } else {
        LimFacts(Snap(), 0);
        TrailClosed(theory, ca, clauses, Snap());
        PropagatedDown(ca, Snap(), |trail|, trailLim[0]);
      }
      if clash {
        ClashRefutes(theory, t0, Snap(), assumps);
      } else {
        AllOnTrail(t0, Snap(), assumps);
      }
    }

    /** A conflict above level 0 clashes with the assumptions. */
    lemma ClashUnder(ca0: map<CRef, Clause>, t00: State, t0: State, assumps: seq<Lit>, clash: bool, under: Option<CRef>)
      requires GrowsBy(ca0, t00, ca0, t0, UnitsOf(assumps)) && ReasonsOk(ca0, t0) && SameClauses(ca0, ca) && Extends(t0, Snap()) && Running()
      requires clash || under.Some?
      requires clash ==> exists l :: l in assumps && IsFalse(t0, l)
      requires under.Some? ==> Conflict(under.value)
      ensures Clashes(ca0, t00, UnitsOf(assumps))
    {
      hide Clashes, GrowsBy, ReasonsOk, ClausesOk, Sound, SameClauses, Extends, Conflict, Wf;
      if clash {
        var l :| l in assumps && IsFalse(t0, l);
        AssumedClash(ca0, t00, ca0, t0, assumps, l);
      } else {
        ConflictNow(under.value, UnitsOf(assumps));
        ReasonsWf(ca0, t0);
        ClashesAfter(ca0, t0, ca, Snap(), UnitsOf(assumps));
        ClashesGrown(ca0, t00, ca0, t0, UnitsOf(assumps));
      }
    }

    lemma ConflictAll(cr: CRef)
      requires Conflict(cr)
      ensures cr in ca && forall k :: 0 <= k < |ca[cr]| ==> IsFalse(Snap(), ca[cr][k])
    {
    }

    method OpenAssumed(assumps: seq<Lit>)
      requires Ready() && DecisionLevel() == 0 && qhead == |trail|
      modifies this`trailLim
      ensures Ready() && DecisionLevel() == 1 && qhead == |trail| == trailLim[0] && OnlyAssumed(Snap(), assumps) && Snap() == NewLevel(old(Snap()))
    {
      hide ReasonsOk, ClausesOk, WatchesLazy, PropagatedTo, Sound, Wf, Covered, RefsBelow, OnlyAssumed;
      TopAssumed(Snap(), assumps);
      NewLevelReady();
      NewDecisionLevel();
    }

    /** Enqueues the assumptions that have no value; `clash` when one is false. */
    method EnqueueAll(assumps: seq<Lit>) returns (clash: bool)
      requires Ready() && DecisionLevel() == 1 && OnlyAssumed(Snap(), assumps) && forall l :: l in assumps ==> l.v < |assigns|
      modifies this`assigns, this`vardata, this`trail, this`pos
      ensures Ready() && OnlyAssumed(Snap(), assumps) && |assigns| == |old(assigns)|
      ensures GrowsBy(ca, old(Snap()), ca, Snap(), UnitsOf(assumps))
      ensures clash ==> exists l :: l in assumps && IsFalse(Snap(), l)
      ensures !clash ==> forall l :: l in assumps ==> IsTrue(Snap(), l)
    {
      hide GrowsBy, ReasonsOk, ClausesOk, WatchesLazy, PropagatedTo, Sound, Wf, Covered, RefsBelow, OnlyAssumed;
      clash := false;
      GrowsRefl(ca, Snap(), UnitsOf(assumps));
      var i := 0;
      while i < |assumps|
        invariant 0 <= i <= |assumps| && Ready() && OnlyAssumed(Snap(), assumps) && |assigns| == |old(assigns)|
        invariant GrowsBy(ca, old(Snap()), ca, Snap(), UnitsOf(assumps))
        invariant clash ==> exists l :: l in assumps && IsFalse(Snap(), l)
        invariant !clash ==> forall k :: 0 <= k < i ==> IsTrue(Snap(), assumps[k])
      {
        var l := assumps[i];
        assert l in assumps;
        if Value(l) == LUndef {
          EnqAssumed(Snap(), assumps, l);
          EnqWf(Snap(), l, None);
          DecideSame(l);
          AssumeGrows(ca, old(Snap()), Snap(), assumps, l);
          UncheckedEnqueue(l, None);
        } else if Value(l) == LFalse {
          clash := true;
        }
        i := i + 1;
      }
    }

    lemma DecideSame(l: Lit)
      requires Ready() && DecisionLevel() > 0 && l.v < |assigns| && assigns[l.v] == LUndef
      ensures var t' := Enq(Snap(), l, None);
        Wf(t') && ReasonsOk(ca, t') && Sound(theory, ca, t') && Covered(theory, ca, clauses, t') && PropagatedTo(ca, t', qhead)
    {
      hide ReasonsOk, ClausesOk, WatchesLazy, PropagatedTo, Sound, Wf, Covered, RefsBelow;
      EnqWf(Snap(), l, None);
      EnqReasons(ca, Snap(), l, None);
      EnqSound(theory, ca, Snap(), l, None);
      EnqCovered(theory, ca, clauses, Snap(), l, None);
      NoExemption(ca, Snap(), qhead, l);
      EnqPropagated(ca, Snap(), l, None, qhead, l, []);
      NoExemption(ca, Enq(Snap(), l, None), qhead, l);
    }

    /** Enqueues at level 0, without propagating, the only literal of a new clause that has no value. */
    method EnqueueClause(ghost c: set<Lit>, l: Lit)
      requires Idle() && ok && DecisionLevel() == 0 && l in c && l.v < |assigns| && assigns[l.v] == LUndef
      requires forall q :: q in c ==> q == l || IsFalse(Snap(), q)
      modifies this`theory, this`assigns, this`vardata, this`trail, this`pos
      ensures Idle() && DecisionLevel() == 0 && theory == old(theory) + {c} && |assigns| == |old(assigns)|
    {
      hide ReasonsOk, ClausesOk, WatchesLazy, PropagatedTo, Wf, Covered, RefsBelow, Entails, Sound, LevelsBound, Follows;
      EnqueueNew(c, l);
      RetainedAtTop(assumptions);
    }

    /** A literal true already says as much as its unit clause. */
    ghost method NoteTrue(l: Lit)
      requires Idle() && ok && DecisionLevel() == 0 && l.v < |assigns| && IsTrue(Snap(), l)
      modifies this`theory
      ensures Idle() && theory == old(theory) + {{l}}
    {
      hide ReasonsOk, ClausesOk, WatchesLazy, PropagatedTo, Wf, Covered, RefsBelow, Entails, Sound, LevelsBound, Follows;
      assert l in {l};
      AddSatisfied({l});
      RetainedAtTop(assumptions);
    }

    /** A satisfiable theory has not been refuted. */
    lemma NotRefuted(a: seq<Lit>)
      requires Idle() && Satisfiable(theory, a)
      ensures ok && !reallyUnsat
    {
      hide ReasonsOk, ClausesOk, WatchesLazy, PropagatedTo, Wf, Covered, RefsBelow, Sound, LevelsBound, Follows;
      if Entails(theory, {}) { Refuted(a); }
    }
  }
}
