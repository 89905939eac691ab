/** Conflict analysis on a snapshot: the set of variables still to be resolved, and which
    literals of the learnt clause are implied by the others. */
module Analysis {
  import opened Cnf
  import opened Trail
  import opened Watch
  import opened Database

  predicate Assigned(t: State, v: nat) {
    v < |t.assigns| && t.assigns[v] != LUndef
  }

  /** The false literal of an assigned variable. */
  function FalseLit(t: State, v: nat): Lit
    requires Assigned(t, v)
  {
    Lit(v, t.assigns[v] == LTrue)
  }

  ghost function FalseLits(t: State, vs: set<nat>): set<Lit>
    requires forall v :: v in vs ==> Assigned(t, v)
  {
    set v | v in vs :: FalseLit(t, v)
  }

  /** The false literals of the assigned variables `vs`, and `more`, are an entailed disjunction. */
  ghost predicate Resolvent(theory: Theory, t: State, vs: set<nat>, more: set<Lit>) {
    (forall v :: v in vs ==> Assigned(t, v)) && Entails(theory, FalseLits(t, vs) + more)
  }

  lemma ResolventFacts(theory: Theory, t: State, vs: set<nat>, more: set<Lit>)
    requires Resolvent(theory, t, vs, more)
    ensures forall v :: v in vs ==> Assigned(t, v)
    ensures Entails(theory, FalseLits(t, vs) + more) && FalseLits(t, vs) + {} == FalseLits(t, vs)
  {
  }

  lemma IsResolvent(theory: Theory, t: State, vs: set<nat>)
    requires forall v :: v in vs ==> Assigned(t, v)
    requires Entails(theory, FalseLits(t, vs))
    ensures Resolvent(theory, t, vs, {})
  {
    assert FalseLits(t, vs) + {} == FalseLits(t, vs);
  }

  /** `out` lists from index 1 on, once each, the false literals of the variables `low`. */
  ghost predicate Lists(t: State, out: seq<Lit>, low: set<nat>) {
    && |out| >= 1
    && (forall i :: 1 <= i < |out| ==> IsFalse(t, out[i]) && out[i].v in low)
    && (forall v :: v in low ==> exists i :: 1 <= i < |out| && out[i].v == v)
    && (forall i, j :: 1 <= i < j < |out| ==> out[i].v != out[j].v)
  }

  /** The marked variables: `cur` of the current level, `low` of the levels between it and 0. */
  ghost predicate Frontier(t: State, seen: seq<bool>, cur: set<nat>, low: set<nat>) {
    && |seen| == |t.assigns| == |t.vardata| == |t.pos|
    && (forall v: nat :: v < |seen| ==> (seen[v] <==> v in cur || v in low))
    && (forall v :: v in cur ==> Assigned(t, v) && t.vardata[v].level == |t.lim|)
    && (forall v :: v in low ==> Assigned(t, v) && 0 < t.vardata[v].level < |t.lim|)
  }

  ghost predicate AllBefore(t: State, vs: set<nat>, bound: int) {
    forall v :: v in vs ==> v < |t.pos| && t.pos[v] < bound
  }

  /** Every literal of `c` from index `start` on is at level 0 or has its variable in `vs`. */
  ghost predicate CoveredFrom(t: State, c: Clause, start: nat, vs: set<nat>) {
    forall k :: start <= k < |c| ==> c[k].v in vs || TopFalse(t, c[k])
  }

  lemma MarkCur(t: State, seen: seq<bool>, cur: set<nat>, low: set<nat>, v: nat)
    requires Frontier(t, seen, cur, low) && Assigned(t, v) && !seen[v] && t.vardata[v].level == |t.lim| > 0
    ensures Frontier(t, seen[v := true], cur + {v}, low) && |cur + {v}| == |cur| + 1
  {
  }

  lemma MarkLow(t: State, seen: seq<bool>, cur: set<nat>, low: set<nat>, out: seq<Lit>, q: Lit)
    requires Frontier(t, seen, cur, low) && Lists(t, out, low)
    requires IsFalse(t, q) && !seen[q.v] && 0 < t.vardata[q.v].level < |t.lim|
    ensures Frontier(t, seen[q.v := true], cur, low + {q.v}) && Lists(t, out + [q], low + {q.v})
  {
    var out' := out + [q];
    forall v | v in low + {q.v} ensures exists i :: 1 <= i < |out'| && out'[i].v == v {
      if v in low {
        var i :| 1 <= i < |out| && out[i].v == v;
        assert out'[i].v == v;
      } else {
        assert out'[|out|].v == v;
      }
    }
  }

  lemma Unmark(t: State, seen: seq<bool>, cur: set<nat>, low: set<nat>, v: nat)
    requires Frontier(t, seen, cur, low) && v in cur
    ensures Frontier(t, seen[v := false], cur - {v}, low) && |cur - {v}| == |cur| - 1
  {
  }

  /** The conflicting clause, level-0 literals dropped. */
  lemma StartResolvent(theory: Theory, ca: map<CRef, Clause>, t: State, cr: CRef, vs: set<nat>)
    requires Sound(theory, ca, t) && cr in ca && CoveredFrom(t, ca[cr], 0, vs)
    requires forall v :: v in vs ==> Assigned(t, v)
    requires forall k :: 0 <= k < |ca[cr]| ==> IsFalse(t, ca[cr][k])
    ensures Entails(theory, FalseLits(t, vs))
  {
    var c := ca[cr];
    forall l | l in Lits(c) ensures l in FalseLits(t, vs) || Entails(theory, {l.Not()}) {
      var k :| 0 <= k < |c| && c[k] == l;
      if c[k].v in vs {
        assert FalseLit(t, l.v) == l;
      } else {
        TopFalseEntailed(theory, ca, t, l);
      }
    }
    EntailsDrop(theory, Lits(c), FalseLits(t, vs));
  }

  /** Resolving the disjunction with the reason of `p`. */
  lemma ResolveStep(theory: Theory, ca: map<CRef, Clause>, t: State, cr: CRef, p: Lit, vs: set<nat>, vs': set<nat>)
    requires Sound(theory, ca, t) && cr in ca && |ca[cr]| > 0 && ca[cr][0] == p && CoveredFrom(t, ca[cr], 1, vs')
    requires forall k :: 1 <= k < |ca[cr]| ==> IsFalse(t, ca[cr][k])
    requires vs <= vs' && forall v :: v in vs' ==> Assigned(t, v)
    requires Entails(theory, FalseLits(t, vs) + {p.Not()})
    ensures Entails(theory, FalseLits(t, vs'))
  {
    var c := ca[cr];
    forall m: Assignment | SatAll(m, theory) ensures Sat(m, FalseLits(t, vs')) {
      assert Sat(m, FalseLits(t, vs) + {p.Not()});
      var l :| l in FalseLits(t, vs) + {p.Not()} && True(m, l);
      if l in FalseLits(t, vs) {
        assert l in FalseLits(t, vs');
      } else {
        assert Sat(m, Lits(c));
        var q :| q in Lits(c) && True(m, q);
        var k :| 0 <= k < |c| && c[k] == q;
        assert k > 0;
        if q.v in vs' {
          assert FalseLit(t, q.v) == q;
        } else {
          TopFalseEntailed(theory, ca, t, q);
          assert Sat(m, {q.Not()});
        }
      }
    }
  }

  // ----- minimisation -----

  /** The reason of `v` has only marked or level-0 literals besides `v`'s own. */
  ghost predicate Closed(ca: map<CRef, Clause>, t: State, seen: seq<bool>, v: nat) {
    && |t.assigns| == |t.vardata| == |seen| && Assigned(t, v)
    && t.vardata[v].reason.Some? && t.vardata[v].reason.value in ca
    && var c := ca[t.vardata[v].reason.value];
       forall k :: 1 <= k < |c| ==> (c[k].v < |seen| && seen[c[k].v]) || TopFalse(t, c[k])
  }

  ghost predicate Marks(seen: seq<bool>, seen': seq<bool>) {
    |seen| == |seen'| && forall v :: 0 <= v < |seen| && seen[v] ==> seen'[v]
  }

  lemma ClosedMore(ca: map<CRef, Clause>, t: State, seen: seq<bool>, seen': seq<bool>, v: nat)
    requires Closed(ca, t, seen, v) && Marks(seen, seen')
    ensures Closed(ca, t, seen', v)
  {
  }

  /** In a model falsifying the kept literals every marked variable keeps its trail value. */
  lemma {:induction false} ClosedFalse(theory: Theory, ca: map<CRef, Clause>, t: State, seen: seq<bool>, kept: set<nat>, m: Assignment, v: nat)
    requires ReasonsOk(ca, t) && Sound(theory, ca, t) && |seen| == |t.assigns|
    requires forall u: nat :: u < |seen| && seen[u] ==> Assigned(t, u) && (u in kept || Closed(ca, t, seen, u))
    requires forall u :: u in kept ==> Assigned(t, u)
    requires SatAll(m, theory) && !Sat(m, FalseLits(t, kept))
    requires v < |seen| && seen[v]
    ensures !True(m, FalseLit(t, v))
    decreases t.pos[v]
  {
    if v in kept {
      assert FalseLit(t, v) in FalseLits(t, kept);
    } else {
      var i := t.pos[v];
      assert ReasonOk(ca, t, i);
      var cr := t.vardata[v].reason.value;
      var c := ca[cr];
      forall k | 1 <= k < |c| ensures !True(m, c[k]) {
        if c[k].v < |seen| && seen[c[k].v] {
          ClosedFalse(theory, ca, t, seen, kept, m, c[k].v);
          assert FalseLit(t, c[k].v) == c[k];
        } else {
          TopFalseEntailed(theory, ca, t, c[k]);
          assert Sat(m, {c[k].Not()});
        }
      }
      assert Sat(m, Lits(c));
      assert True(m, c[0]);
    }
  }

  /** Dropping every marked variable that is closed leaves an entailed disjunction. */
  lemma MinimisedEntailed(theory: Theory, ca: map<CRef, Clause>, t: State, seen: seq<bool>, low: set<nat>, kept: set<nat>, uip: Lit)
    requires ReasonsOk(ca, t) && Sound(theory, ca, t) && |seen| == |t.assigns|
    requires forall u: nat :: u < |seen| && seen[u] ==> Assigned(t, u) && (u in kept || Closed(ca, t, seen, u))
    requires forall u :: u in kept || u in low ==> Assigned(t, u)
    requires forall u :: u in low ==> u < |seen| && seen[u]
    requires Entails(theory, FalseLits(t, low) + {uip})
    ensures Entails(theory, FalseLits(t, kept) + {uip})
  {
    forall m: Assignment | SatAll(m, theory) ensures Sat(m, FalseLits(t, kept) + {uip}) {
      assert Sat(m, FalseLits(t, low) + {uip});
      var l :| l in FalseLits(t, low) + {uip} && True(m, l);
      if l == uip {
      } else if Sat(m, FalseLits(t, kept)) {
        var q :| q in FalseLits(t, kept) && True(m, q);
        assert q in FalseLits(t, kept) + {uip};
      } else {
        ClosedFalse(theory, ca, t, seen, kept, m, l.v);
      }
    }
  }

  lemma SplitFalse(t: State, vs: set<nat>, p: Lit)
    requires IsTrue(t, p) && p.v in vs && forall v :: v in vs ==> Assigned(t, v)
    ensures FalseLits(t, vs) == FalseLits(t, vs - {p.v}) + {p.Not()}
  {
    assert FalseLit(t, p.v) == p.Not();
    forall l | l in FalseLits(t, vs) ensures l in FalseLits(t, vs - {p.v}) + {p.Not()} {
      assert FalseLit(t, l.v) == l;
    }
  }

  /** Walking the trail down from a bound above all current-level marks, the first marked
      literal is one of them. */
  lemma FirstMarkedIsCurrent(t: State, seen: seq<bool>, cur: set<nat>, low: set<nat>, index: nat)
    requires Wf(t) && Frontier(t, seen, cur, low) && |cur| > 0 && |t.lim| > 0
    requires AllBefore(t, cur, index + 1) && index < |t.trail| && seen[t.trail[index].v]
    ensures t.trail[index].v in cur && AllBefore(t, cur - {t.trail[index].v}, index)
  {
    var p := t.trail[index];
    var u :| u in cur;
    assert LevelFits(t, t.pos[u], |t.lim|) by { assert t.trail[t.pos[u]].v == u; }
    assert LevelFits(t, index, t.vardata[p.v].level);
    forall v | v in cur - {p.v} ensures t.pos[v] < index {
      assert t.trail[t.pos[v]].v == v;
    }
  }

  /** A current-level literal with another current-level literal before it on the trail is implied. */
  lemma HasReason(ca: map<CRef, Clause>, t: State, index: nat, cur: set<nat>)
    requires ReasonsOk(ca, t) && DecisionsFirst(t) && index < |t.trail| && |t.lim| > 0 && t.vardata[t.trail[index].v].level == |t.lim|
    requires |cur| > 0 && AllBefore(t, cur, index)
    requires forall v :: v in cur ==> Assigned(t, v) && t.vardata[v].level == |t.lim|
    ensures var d := t.vardata[t.trail[index].v];
      d.reason.Some? && d.reason.value in ca && IsReason(t, ca[d.reason.value], index)
  {
    var u :| u in cur;
    assert LevelFits(t, t.pos[u], |t.lim|) by { assert t.trail[t.pos[u]].v == u; }
    assert ReasonOk(ca, t, index);
  }

  lemma FrontierFacts(t: State, seen: seq<bool>, cur: set<nat>, low: set<nat>, v: nat)
    requires Frontier(t, seen, cur, low) && v < |t.assigns|
    ensures |seen| == |t.assigns| == |t.vardata| == |t.pos| && (seen[v] <==> v in cur || v in low)
    ensures v in cur ==> t.vardata[v].level == |t.lim|
  {
  }

  lemma FrontierAssigned(t: State, seen: seq<bool>, cur: set<nat>, low: set<nat>)
    requires Frontier(t, seen, cur, low)
    ensures forall v :: v in cur || v in low ==> Assigned(t, v)
    ensures forall v :: v in cur ==> t.vardata[v].level == |t.lim|
  {
  }

  lemma EmptyFrontier(t: State, seen: seq<bool>, out: seq<Lit>)
    requires |seen| == |t.assigns| == |t.vardata| == |t.pos| && |out| == 1
    requires forall v :: 0 <= v < |seen| ==> !seen[v]
    ensures Frontier(t, seen, {}, {}) && Lists(t, out, {}) && forall b: int :: AllBefore(t, {}, b)
  {
  }

  lemma ReasonFacts(t: State, c: Clause, i: nat)
    requires IsReason(t, c, i)
    ensures i < |t.trail| && |c| > 0 && c[0] == t.trail[i] && |t.pos| == |t.assigns|
    ensures forall k :: 1 <= k < |c| ==> IsFalse(t, c[k]) && t.pos[c[k].v] < i
  {
  }

  lemma CurNotEmpty(t: State, seen: seq<bool>, cur: set<nat>, low: set<nat>, c: Clause)
    requires Frontier(t, seen, cur, low) && CoveredFrom(t, c, 0, cur + low)
    requires exists k :: 0 <= k < |c| && IsFalse(t, c[k]) && t.vardata[c[k].v].level == |t.lim| > 0
    ensures |cur| > 0
  {
    var k :| 0 <= k < |c| && IsFalse(t, c[k]) && t.vardata[c[k].v].level == |t.lim| > 0;
    assert c[k].v in cur;
  }

  lemma BoundPositive(t: State, cur: set<nat>, bound: int)
    requires AllBefore(t, cur, bound) && |cur| > 0
    ensures bound > 0
  {
    var u :| u in cur;
  }

  lemma ListsFirst(t: State, out: seq<Lit>, low: set<nat>, l: Lit)
    requires Lists(t, out, low)
    ensures |out| >= 1 && Lists(t, out[0 := l], low)
  {
    var out' := out[0 := l];
    forall v | v in low ensures exists i :: 1 <= i < |out'| && out'[i].v == v {
      var i :| 1 <= i < |out| && out[i].v == v;
      assert out'[i].v == v;
    }
  }

  // ----- redundancy of one literal -----

  /** Marks added since `seen0`: exactly the variables of `added`, none of them marked before. */
  ghost predicate Added(seen0: seq<bool>, seen: seq<bool>, added: seq<Lit>) {
    && |seen0| == |seen|
    && (forall v :: 0 <= v < |seen| ==> (seen[v] <==> seen0[v] || exists i :: 0 <= i < |added| && added[i].v == v))
    && (forall i :: 0 <= i < |added| ==> added[i].v < |seen| && !seen0[added[i].v])
  }

  /** Newly marked variables are closed, or their literal waits on the stack. */
  ghost predicate ClosedOrWaiting(ca: map<CRef, Clause>, t: State, seen0: seq<bool>, seen: seq<bool>, root: nat, stack: seq<Lit>) {
    && |seen0| == |seen|
    && forall v: nat :: v < |seen| && ((seen[v] && !seen0[v]) || v == root) ==>
         Closed(ca, t, seen, v) || exists i :: 0 <= i < |stack| && stack[i].v == v
  }

  /** Every literal on the stack was falsified by a clause. */
  ghost predicate StackOk(ca: map<CRef, Clause>, t: State, stack: seq<Lit>) {
    forall i :: 0 <= i < |stack| ==>
      && IsFalse(t, stack[i]) && |t.assigns| == |t.vardata| && t.vardata[stack[i].v].reason.Some?
  }

  lemma AddOne(ca: map<CRef, Clause>, t: State, seen0: seq<bool>, seen: seq<bool>, added: seq<Lit>, l: Lit)
    requires Added(seen0, seen, added) && l.v < |seen| && !seen[l.v]
    ensures Added(seen0, seen[l.v := true], added + [l])
  {
    var seen', added' := seen[l.v := true], added + [l];
    forall v | 0 <= v < |seen|
      ensures seen'[v] <==> seen0[v] || exists i :: 0 <= i < |added'| && added'[i].v == v
    {
      if v == l.v {
        assert added'[|added|].v == v;
      } else if i :| 0 <= i < |added| && added[i].v == v {
        assert added'[i].v == v;
      }
    }
  }

  /** What holds of the implication graph walk while the reason `c` of variable `u` is read. */
  ghost predicate Walking(ca: map<CRef, Clause>, t: State, seen0: seq<bool>, seen: seq<bool>, root: nat, stack: seq<Lit>, u: nat) {
    && |seen0| == |seen|
    && forall v: nat :: v < |seen| && v != u && ((seen[v] && !seen0[v]) || v == root) ==>
         Closed(ca, t, seen, v) || exists i :: 0 <= i < |stack| && stack[i].v == v
  }

  lemma Pop(ca: map<CRef, Clause>, t: State, seen0: seq<bool>, seen: seq<bool>, root: nat, stack: seq<Lit>)
    requires ClosedOrWaiting(ca, t, seen0, seen, root, stack) && |stack| > 0
    ensures Walking(ca, t, seen0, seen, root, stack[..|stack| - 1], stack[|stack| - 1].v)
  {
    var n := |stack| - 1;
    forall v: nat | v < |seen| && v != stack[n].v && ((seen[v] && !seen0[v]) || v == root) && !Closed(ca, t, seen, v)
      ensures exists i :: 0 <= i < |stack[..n]| && stack[..n][i].v == v
    {
      var i :| 0 <= i < |stack| && stack[i].v == v;
      assert stack[..n][i].v == v;
    }
  }

  lemma Push(ca: map<CRef, Clause>, t: State, seen0: seq<bool>, seen: seq<bool>, root: nat, stack: seq<Lit>, u: nat, l: Lit)
    requires Walking(ca, t, seen0, seen, root, stack, u) && l.v < |seen| && !seen[l.v]
    ensures Walking(ca, t, seen0, seen[l.v := true], root, stack + [l], u)
  {
    var seen', stack' := seen[l.v := true], stack + [l];
    assert Marks(seen, seen');
    forall v: nat | v < |seen'| && v != u && ((seen'[v] && !seen0[v]) || v == root) && !Closed(ca, t, seen', v)
      ensures exists i :: 0 <= i < |stack'| && stack'[i].v == v
    {
      if Closed(ca, t, seen, v) {
        ClosedMore(ca, t, seen, seen', v);
      } else if v == l.v {
        assert stack'[|stack|].v == v;
      } else {
        var i :| 0 <= i < |stack| && stack[i].v == v;
        assert stack'[i].v == v;
      }
    }
  }

  lemma DoneReading(ca: map<CRef, Clause>, t: State, seen0: seq<bool>, seen: seq<bool>, root: nat, stack: seq<Lit>, u: nat)
    requires Walking(ca, t, seen0, seen, root, stack, u) && Closed(ca, t, seen, u)
    ensures ClosedOrWaiting(ca, t, seen0, seen, root, stack)
  {
  }

  lemma AddedUndone(seen0: seq<bool>, seen: seq<bool>, added: seq<Lit>, seen': seq<bool>)
    requires Added(seen0, seen, added) && |seen'| == |seen|
    requires forall v :: 0 <= v < |seen| ==>
      (seen'[v] <==> seen[v] && forall i :: 0 <= i < |added| ==> added[i].v != v)
    ensures seen' == seen0
  {
  }

  ghost predicate Within(t: State, seen: seq<bool>) {
    |seen| == |t.assigns| == |t.vardata|
  }

  ghost function Unseen(seen: seq<bool>): set<nat> {
    set v: nat | v < |seen| && !seen[v]
  }

  lemma UnseenShrinks(seen: seq<bool>, v: nat)
    requires v < |seen| && !seen[v]
    ensures Unseen(seen[v := true]) < Unseen(seen)
  {
    assert v in Unseen(seen) && v !in Unseen(seen[v := true]);
  }

  lemma StartWalk(ca: map<CRef, Clause>, t: State, seen: seq<bool>, none: seq<Lit>, p: Lit)
    requires none == [] && IsFalse(t, p) && |t.assigns| == |t.vardata| && t.vardata[p.v].reason.Some?
    ensures Added(seen, seen, none) && ClosedOrWaiting(ca, t, seen, seen, p.v, [p]) && StackOk(ca, t, [p])
  {
    assert [p][0].v == p.v;
  }

  lemma WalkDone(ca: map<CRef, Clause>, t: State, seen0: seq<bool>, seen: seq<bool>, root: nat)
    requires ClosedOrWaiting(ca, t, seen0, seen, root, [])
    ensures forall v: nat :: v < |seen| && ((seen[v] && !seen0[v]) || v == root) ==> Closed(ca, t, seen, v)
  {
  }

  lemma PushStack(ca: map<CRef, Clause>, t: State, stack: seq<Lit>, l: Lit)
    requires StackOk(ca, t, stack) && IsFalse(t, l) && |t.assigns| == |t.vardata| && t.vardata[l.v].reason.Some?
    ensures StackOk(ca, t, stack + [l])
  {
  }

  lemma PopStack(ca: map<CRef, Clause>, t: State, stack: seq<Lit>)
    requires StackOk(ca, t, stack) && |stack| > 0
    ensures StackOk(ca, t, stack[..|stack| - 1])
    ensures IsFalse(t, stack[|stack| - 1]) && |t.assigns| == |t.vardata| && t.vardata[stack[|stack| - 1].v].reason.Some?
  {
  }

  lemma StackReason(ca: map<CRef, Clause>, t: State, q: Lit)
    requires ReasonsOk(ca, t) && IsFalse(t, q) && t.vardata[q.v].reason.Some?
    ensures q.v < |t.pos| && t.vardata[q.v].reason.value in ca && IsReason(t, ca[t.vardata[q.v].reason.value], t.pos[q.v])
  {
    TrueFacts(t, q);
    assert ReasonOk(ca, t, t.pos[q.v]);
  }

  lemma AddedRange(seen0: seq<bool>, seen: seq<bool>, toclear: seq<Lit>, top: nat)
    requires top <= |toclear| && Added(seen0, seen, toclear[top..])
    ensures forall i :: top <= i < |toclear| ==> toclear[i].v < |seen|
  {
    forall i | top <= i < |toclear| ensures toclear[i].v < |seen| {
      assert toclear[top..][i - top] == toclear[i];
    }
  }

  lemma ClearedAdded(seen0: seq<bool>, seen: seq<bool>, toclear: seq<Lit>, top: nat, seen': seq<bool>)
    requires top <= |toclear| && Added(seen0, seen, toclear[top..]) && |seen'| == |seen|
    requires forall v :: 0 <= v < |seen| ==>
      (seen'[v] <==> seen[v] && forall i :: top <= i < |toclear| ==> toclear[i].v != v)
    ensures seen' == seen0
  {
    var added := toclear[top..];
    forall v | 0 <= v < |seen|
      ensures seen'[v] <==> seen[v] && forall i :: 0 <= i < |added| ==> added[i].v != v
    {
      if forall i :: 0 <= i < |added| ==> added[i].v != v {
        forall i | top <= i < |toclear| ensures toclear[i].v != v { assert added[i - top] == toclear[i]; }
      }
    }
    AddedUndone(seen0, seen, added, seen');
  }

  lemma FrontierLevels(t: State, seen: seq<bool>, cur: set<nat>, low: set<nat>, v: nat)
    requires Frontier(t, seen, cur, low) && v in cur
    ensures v < |t.vardata| && t.vardata[v].level == |t.lim| && v !in low
  {
  }

  // ----- the minimisation loop -----

  lemma ListsFacts(t: State, out: seq<Lit>, low: set<nat>)
    requires Lists(t, out, low)
    ensures |out| >= 1 && forall i :: 1 <= i < |out| ==> IsFalse(t, out[i]) && out[i].v in low
    ensures forall i, j :: 1 <= i < j < |out| ==> out[i].v != out[j].v
    ensures forall v :: v in low ==> exists i :: 1 <= i < |out| && out[i].v == v
  {
  }

  /** Marks that will be cleared through `toclear`. */
  ghost predicate Cleared(seen: seq<bool>, toclear: seq<Lit>) {
    && (forall v :: 0 <= v < |seen| && seen[v] ==> exists i :: 0 <= i < |toclear| && toclear[i].v == v)
    && (forall i :: 0 <= i < |toclear| ==> toclear[i].v < |seen|)
  }

  lemma ClearedFacts(seen: seq<bool>, toclear: seq<Lit>)
    requires Cleared(seen, toclear)
    ensures forall v :: 0 <= v < |seen| && seen[v] ==> exists i :: 0 <= i < |toclear| && toclear[i].v == v
    ensures forall i :: 0 <= i < |toclear| ==> toclear[i].v < |seen|
  {
  }

  lemma ClearedMore(seen0: seq<bool>, seen: seq<bool>, toclear0: seq<Lit>, toclear: seq<Lit>)
    requires Cleared(seen0, toclear0) && toclear0 <= toclear && Added(seen0, seen, toclear[|toclear0|..])
    ensures Cleared(seen, toclear)
  {
    var added := toclear[|toclear0|..];
    forall v | 0 <= v < |seen| && seen[v] ensures exists i :: 0 <= i < |toclear| && toclear[i].v == v {
      if seen0[v] {
        var i :| 0 <= i < |toclear0| && toclear0[i].v == v;
        assert toclear[i].v == v;
      } else {
        var i :| 0 <= i < |added| && added[i].v == v;
        assert toclear[|toclear0| + i].v == v;
      }
    }
    forall i | 0 <= i < |toclear| ensures toclear[i].v < |seen| {
      if i >= |toclear0| { assert added[i - |toclear0|] == toclear[i]; } else { assert toclear0[i] == toclear[i]; }
    }
  }

  /** `v` is the variable of a kept literal, or of one not looked at yet. */
  ghost predicate StillThere(out: seq<Lit>, r: seq<Lit>, i: nat, v: nat) {
    (exists k :: 1 <= k < |r| && r[k].v == v) || (exists k :: 1 <= i <= k < |out| && out[k].v == v)
  }

  /** Marked variables are still there or closed; `r` is the part of `out[..i]` kept so far. */
  ghost predicate Minimising(ca: map<CRef, Clause>, t: State, seen: seq<bool>, low: set<nat>, out: seq<Lit>, r: seq<Lit>, i: nat) {
    && |seen| == |t.assigns| && Lists(t, out, low) && 1 <= i <= |out| && |r| >= 1
    && (forall v :: v in low ==> v < |seen| && seen[v])
    && (forall v: nat :: v < |seen| && seen[v] ==> Closed(ca, t, seen, v) || StillThere(out, r, i, v))
    && (forall k :: 1 <= k < |r| ==> r[k] in out[1..i])
    && (forall j, k :: 1 <= j < k < |r| ==> r[j].v != r[k].v)
  }

  lemma StartMinimising(ca: map<CRef, Clause>, t: State, seen: seq<bool>, low: set<nat>, out: seq<Lit>, toclear: seq<Lit>)
    requires Frontier(t, seen, {}, low) && Lists(t, out, low) && toclear == out && out[0].v < |t.assigns|
    ensures Minimising(ca, t, seen, low, out, [out[0]], 1) && Cleared(seen, toclear)
  {
  }

  lemma DropLit(ca: map<CRef, Clause>, t: State, seen0: seq<bool>, seen: seq<bool>, low: set<nat>, out: seq<Lit>, r: seq<Lit>, i: nat)
    requires Minimising(ca, t, seen0, low, out, r, i) && i < |out| && |seen| == |seen0|
    requires exists added :: Added(seen0, seen, added)
    requires forall v: nat :: v < |seen| && ((seen[v] && !seen0[v]) || v == out[i].v) ==> Closed(ca, t, seen, v)
    ensures Minimising(ca, t, seen, low, out, r, i + 1)
  {
    assert Marks(seen0, seen);
    forall v: nat | v < |seen| && seen[v] && !Closed(ca, t, seen, v) ensures StillThere(out, r, i + 1, v) {
      assert seen0[v] && v != out[i].v;
      if Closed(ca, t, seen0, v) { ClosedMore(ca, t, seen0, seen, v); }
      assert StillThere(out, r, i, v);
    }
    forall k | 1 <= k < |r| ensures r[k] in out[1..i + 1] {
      var j :| 0 <= j < |out[1..i]| && out[1..i][j] == r[k];
      assert out[1..i + 1][j] == r[k];
    }
  }

  lemma KeepLit(ca: map<CRef, Clause>, t: State, seen: seq<bool>, low: set<nat>, out: seq<Lit>, r: seq<Lit>, i: nat)
    requires Minimising(ca, t, seen, low, out, r, i) && i < |out|
    ensures Minimising(ca, t, seen, low, out, r + [out[i]], i + 1)
  {
    var r' := r + [out[i]];
    forall v: nat | v < |seen| && seen[v] && !Closed(ca, t, seen, v) ensures StillThere(out, r', i + 1, v) {
      if v == out[i].v {
        assert r'[|r|].v == v;
      } else if k :| 1 <= k < |r| && r[k].v == v {
        assert r'[k].v == v;
      }
    }
    forall k | 1 <= k < |r'| ensures r'[k] in out[1..i + 1] {
      if k < |r| {
        var j :| 0 <= j < |out[1..i]| && out[1..i][j] == r[k];
        assert out[1..i + 1][j] == r'[k];
      } else {
        assert out[1..i + 1][i - 1] == r'[k];
      }
    }
    forall j, k | 1 <= j < k < |r'| ensures r'[j].v != r'[k].v {
      if k == |r| {
        var m :| 0 <= m < |out[1..i]| && out[1..i][m] == r[j];
        assert out[m + 1] == r[j];
      }
    }
  }

  lemma Minimised(ca: map<CRef, Clause>, t: State, seen: seq<bool>, low: set<nat>, out: seq<Lit>, r: seq<Lit>, kept: set<nat>)
    requires Minimising(ca, t, seen, low, out, r, |out|)
    requires forall v :: v in low ==> Assigned(t, v)
    requires kept == set l | l in r[1..] :: l.v
    ensures Lists(t, r, kept) && kept <= low
    ensures forall u: nat :: u < |seen| && seen[u] ==> Assigned(t, u) && (u in kept || Closed(ca, t, seen, u))
    ensures forall u :: u in kept || u in low ==> Assigned(t, u)
    ensures forall u :: u in low ==> u < |seen| && seen[u]
  {
    forall k | 1 <= k < |r| ensures IsFalse(t, r[k]) && r[k].v in kept && r[k].v in low {
      assert r[1..][k - 1] == r[k];
      var j :| 0 <= j < |out[1..|out|]| && out[1..|out|][j] == r[k];
      assert out[j + 1] == r[k];
    }
    forall v | v in kept ensures exists k :: 1 <= k < |r| && r[k].v == v {
      var l :| l in r[1..] && l.v == v;
      var k :| 0 <= k < |r[1..]| && r[1..][k] == l;
      assert r[k + 1].v == v;
    }
    forall u: nat | u < |seen| && seen[u] && !Closed(ca, t, seen, u) ensures u in kept {
      var k :| 1 <= k < |r| && r[k].v == u;
    }
  }

  lemma FrontierLow(t: State, seen: seq<bool>, low: set<nat>)
    requires Frontier(t, seen, {}, low)
    ensures |t.assigns| == |t.vardata| && forall v :: v in low ==> Assigned(t, v) && 0 < t.vardata[v].level < |t.lim|
  {
  }

  // ----- the learnt clause -----

  /** What conflict analysis promises: an entailed clause, false under the trail, with its only
      current-level literal first and a literal of the backtrack level second. */
  ghost predicate Learnt(theory: Theory, t: State, out: Clause, bt: nat) {
    && |t.assigns| == |t.vardata| && |out| >= 1 && DistinctVars(out) && Entails(theory, Lits(out))
    && (forall i :: 0 <= i < |out| ==> IsFalse(t, out[i]))
    && t.vardata[out[0].v].level == |t.lim|
    && (forall i :: 1 <= i < |out| ==> 0 < t.vardata[out[i].v].level <= bt)
    && bt < |t.lim|
    && (|out| == 1 ==> bt == 0)
    && (|out| > 1 ==> t.vardata[out[1].v].level == bt)
  }

  lemma LearntClause(theory: Theory, t: State, seen: seq<bool>, low: set<nat>, kept: set<nat>, out: seq<Lit>)
    requires Lists(t, out, kept) && kept <= low && |t.assigns| == |t.vardata|
    requires forall v :: v in low ==> Assigned(t, v) && 0 < t.vardata[v].level < |t.lim|
    requires IsFalse(t, out[0]) && t.vardata[out[0].v].level == |t.lim|
    requires Entails(theory, FalseLits(t, kept) + {out[0]})
    ensures DistinctVars(out) && Entails(theory, Lits(out))
    ensures forall i :: 0 <= i < |out| ==> IsFalse(t, out[i])
    ensures forall i :: 1 <= i < |out| ==> 0 < t.vardata[out[i].v].level < |t.lim|
  {
    forall l | l in FalseLits(t, kept) + {out[0]} ensures l in Lits(out) {
      if l != out[0] {
        var i :| 1 <= i < |out| && out[i].v == l.v;
        assert out[i] == l;
      } else {
        assert out[0] in out;
      }
    }
    EntailsWeaken(theory, FalseLits(t, kept) + {out[0]}, Lits(out));
    forall i, j | 0 <= i < j < |out| ensures out[i].v != out[j].v {
      assert i == 0 ==> t.vardata[out[i].v].level != t.vardata[out[j].v].level;
    }
  }
}
