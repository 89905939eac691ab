/** The implication graph of a snapshot: chains of variables, each named by the reason of the one before.
    Which literals of a learnt clause are dropped, and which implication point it starts with, is said in
    terms of such chains. */
module ImplicationGraph {
  import opened Cnf
  import opened Trail
  import opened Watch
  import opened Database
  import opened Analysis

  /** Clause `c` names `v` from index `start` on. */
  ghost predicate Names(c: Clause, start: nat, v: nat) {
    exists k :: start <= k < |c| && c[k].v == v
  }

  /** The reason of `u` names `v` besides `u` itself. */
  ghost predicate InReason(ca: map<CRef, Clause>, t: State, u: nat, v: nat) {
    && u < |t.vardata| && t.vardata[u].reason.Some? && t.vardata[u].reason.value in ca
    && Names(ca[t.vardata[u].reason.value], 1, v)
  }

  /** Each variable of the chain stands in the reason of the one before. */
  ghost predicate Linked(ca: map<CRef, Clause>, t: State, chain: seq<nat>) {
    forall i :: 0 < i < |chain| ==> InReason(ca, t, chain[i - 1], chain[i])
  }

  ghost predicate AtLevel(t: State, v: nat, level: nat) {
    v < |t.vardata| && t.vardata[v].level == level
  }

  // ----- redundancy -----

  ghost function Marked(seen: seq<bool>): set<nat> {
    set v: nat | v < |seen| && seen[v]
  }

  ghost function LevelsOf(t: State, vs: set<nat>): set<nat> {
    set v | v in vs && v < |t.vardata| :: t.vardata[v].level % 32
  }

  /** A variable above level 0 outside `avoid`. */
  ghost predicate Open(t: State, avoid: set<nat>, v: nat) {
    v < |t.vardata| && v !in avoid && t.vardata[v].level > 0
  }

  /** A variable without a reason, or of a level that `levels` excludes. */
  ghost predicate Stuck(t: State, levels: set<nat>, v: nat) {
    v < |t.vardata| && (t.vardata[v].reason.None? || t.vardata[v].level % 32 !in levels)
  }

  /** The chain starts at `p` and goes on through open variables. */
  ghost predicate Leads(ca: map<CRef, Clause>, t: State, avoid: set<nat>, p: nat, chain: seq<nat>) {
    && |chain| > 0 && chain[0] == p && Linked(ca, t, chain)
    && forall i :: 0 < i < |chain| ==> Open(t, avoid, chain[i])
  }

  ghost predicate Reaches(ca: map<CRef, Clause>, t: State, avoid: set<nat>, p: nat, v: nat) {
    exists chain :: Leads(ca, t, avoid, p, chain) && chain[|chain| - 1] == v
  }

  /** The chain leads from `p` to another variable that is stuck. */
  ghost predicate StuckChain(ca: map<CRef, Clause>, t: State, avoid: set<nat>, levels: set<nat>, p: nat, chain: seq<nat>) {
    Leads(ca, t, avoid, p, chain) && |chain| > 1 && Stuck(t, levels, chain[|chain| - 1])
  }

  ghost predicate Needed(ca: map<CRef, Clause>, t: State, avoid: set<nat>, levels: set<nat>, p: nat) {
    exists chain :: StuckChain(ca, t, avoid, levels, p, chain)
  }

  /** `p` cannot be left out of a clause over the variables `low`: it has no reason, or a chain from it
      gets stuck before it meets `low`. */
  ghost predicate Essential(ca: map<CRef, Clause>, t: State, low: set<nat>, p: nat) {
    p < |t.vardata| && (t.vardata[p].reason.None? || Needed(ca, t, low, LevelsOf(t, low), p))
  }

  lemma ReachesSelf(ca: map<CRef, Clause>, t: State, avoid: set<nat>, p: nat)
    ensures Reaches(ca, t, avoid, p, p)
  {
    assert Leads(ca, t, avoid, p, [p]);
  }

  /** One more step of the walk. */
  lemma ReachesStep(ca: map<CRef, Clause>, t: State, avoid: set<nat>, levels: set<nat>, p: nat, u: nat, v: nat)
    requires Reaches(ca, t, avoid, p, u) && InReason(ca, t, u, v) && Open(t, avoid, v)
    ensures Reaches(ca, t, avoid, p, v)
    ensures Stuck(t, levels, v) ==> Needed(ca, t, avoid, levels, p)
  {
    var chain :| Leads(ca, t, avoid, p, chain) && chain[|chain| - 1] == u;
    var longer := chain + [v];
    assert Leads(ca, t, avoid, p, longer) by {
      forall i | 0 < i < |longer| ensures InReason(ca, t, longer[i - 1], longer[i]) && Open(t, avoid, longer[i]) {
        if i < |chain| { assert InReason(ca, t, chain[i - 1], chain[i]) && Open(t, avoid, chain[i]); }
      }
    }
    assert longer[|longer| - 1] == v;
    assert Stuck(t, levels, v) ==> StuckChain(ca, t, avoid, levels, p, longer);
  }

  /** The literals waiting on the stack can be reached from `p`. */
  ghost predicate StackReached(ca: map<CRef, Clause>, t: State, avoid: set<nat>, p: nat, stack: seq<Lit>) {
    forall i :: 0 <= i < |stack| ==> Reaches(ca, t, avoid, p, stack[i].v)
  }

  /** Marks added since `seen0` are on levels of `levels`. */
  ghost predicate OnLevels(t: State, levels: set<nat>, seen0: seq<bool>, seen: seq<bool>) {
    |seen0| == |seen| <= |t.vardata| && forall v: nat :: v < |seen| && seen[v] && !seen0[v] ==> t.vardata[v].level % 32 in levels
  }

  /** A literal that the walk marks. */
  lemma WalkMarks(ca: map<CRef, Clause>, t: State, seen0: seq<bool>, seen: seq<bool>, levels: set<nat>, p: nat, u: nat, stack: seq<Lit>, c: Clause, i: nat)
    requires StackReached(ca, t, Marked(seen0), p, stack) && OnLevels(t, levels, seen0, seen)
    requires WalkTurn(ca, t, seen0, seen, p, u, c, i) && t.vardata[c[i].v].level % 32 in levels
    ensures StackReached(ca, t, Marked(seen0), p, stack + [c[i]]) && OnLevels(t, levels, seen0, seen[c[i].v := true])
  {
    hide Reaches, InReason, Stuck, Needed;
    WalkStep(ca, t, seen0, seen, levels, p, u, c, i);
  }

  lemma AddedMarks(seen0: seq<bool>, seen: seq<bool>, added: seq<Lit>)
    requires Added(seen0, seen, added)
    ensures Marks(seen0, seen)
  {
  }

  lemma StartReached(ca: map<CRef, Clause>, t: State, levels: set<nat>, seen: seq<bool>, p: Lit)
    requires |seen| <= |t.vardata|
    ensures StackReached(ca, t, Marked(seen), p.v, [p]) && OnLevels(t, levels, seen, seen)
  {
    ReachesSelf(ca, t, Marked(seen), p.v);
  }

  lemma PopReached(ca: map<CRef, Clause>, t: State, avoid: set<nat>, p: nat, stack: seq<Lit>)
    requires StackReached(ca, t, avoid, p, stack) && |stack| > 0
    ensures Reaches(ca, t, avoid, p, stack[|stack| - 1].v) && StackReached(ca, t, avoid, p, stack[..|stack| - 1])
  {
  }

  /** What holds when the walk looks at an unmarked literal of the reason `c` of `u`. */
  ghost predicate WalkTurn(ca: map<CRef, Clause>, t: State, seen0: seq<bool>, seen: seq<bool>, p: nat, u: nat, c: Clause, i: nat) {
    && Reaches(ca, t, Marked(seen0), p, u) && u < |t.vardata| && t.vardata[u].reason.Some?
    && t.vardata[u].reason.value in ca && c == ca[t.vardata[u].reason.value] && 1 <= i < |c|
    && |seen0| == |seen| && c[i].v < |seen| <= |t.vardata| && !seen[c[i].v] && t.vardata[c[i].v].level > 0
    && Marks(seen0, seen)
  }

  lemma WalkStep(ca: map<CRef, Clause>, t: State, seen0: seq<bool>, seen: seq<bool>, levels: set<nat>, p: nat, u: nat, c: Clause, i: nat)
    requires WalkTurn(ca, t, seen0, seen, p, u, c, i)
    ensures Reaches(ca, t, Marked(seen0), p, c[i].v)
    ensures Stuck(t, levels, c[i].v) ==> Needed(ca, t, Marked(seen0), levels, p)
  {
    assert Names(c, 1, c[i].v);
    ReachesStep(ca, t, Marked(seen0), levels, p, u, c[i].v);
  }

  /** No chain leaves variables whose reasons are marked. */
  lemma {:induction false} ChainMarked(ca: map<CRef, Clause>, t: State, avoid: set<nat>, seen: seq<bool>, p: nat, chain: seq<nat>, i: nat)
    requires Leads(ca, t, avoid, p, chain) && 0 < i < |chain|
    requires forall v: nat :: (v < |seen| && seen[v] && v !in avoid) || v == p ==> Closed(ca, t, seen, v)
    ensures chain[i] < |seen| && seen[chain[i]]
  {
    if i > 1 { ChainMarked(ca, t, avoid, seen, p, chain, i - 1); }
    var u, v := chain[i - 1], chain[i];
    assert Closed(ca, t, seen, u) by { assert i > 1 ==> Open(t, avoid, u); }
    assert InReason(ca, t, u, v) && Open(t, avoid, v);
    var c := ca[t.vardata[u].reason.value];
    var k :| 1 <= k < |c| && c[k].v == v;
  }

  /** If the reasons of `p` and of all variables marked outside `avoid` are marked, and the latter are on
      the given levels, then no chain from `p` gets stuck. */
  lemma ClosedNotNeeded(ca: map<CRef, Clause>, t: State, avoid: set<nat>, levels: set<nat>, seen: seq<bool>, p: nat)
    requires forall v: nat :: (v < |seen| && seen[v] && v !in avoid) || v == p ==> Closed(ca, t, seen, v)
    requires |seen| <= |t.vardata| && forall v: nat :: v < |seen| && seen[v] && v !in avoid ==> t.vardata[v].level % 32 in levels
    ensures !Needed(ca, t, avoid, levels, p)
  {
    forall chain | Leads(ca, t, avoid, p, chain) && |chain| > 1 ensures !Stuck(t, levels, chain[|chain| - 1]) {
      var n := |chain| - 1;
      ChainMarked(ca, t, avoid, seen, p, chain, n);
      assert Open(t, avoid, chain[n]);
      assert Closed(ca, t, seen, chain[n]);
    }
  }

  lemma WalkEnds(ca: map<CRef, Clause>, t: State, levels: set<nat>, seen0: seq<bool>, seen: seq<bool>, p: nat)
    requires OnLevels(t, levels, seen0, seen)
    requires forall v: nat :: v < |seen| && ((seen[v] && !seen0[v]) || v == p) ==> Closed(ca, t, seen, v)
    requires p < |seen|
    ensures !Needed(ca, t, Marked(seen0), levels, p)
  {
    ClosedNotNeeded(ca, t, Marked(seen0), levels, seen, p);
  }

  /** Variables marked beyond `low` are closed and not stuck. */
  ghost predicate Grown(ca: map<CRef, Clause>, t: State, low: set<nat>, levels: set<nat>, seen: seq<bool>) {
    && |seen| <= |t.vardata|
    && (forall v :: v in low ==> v < |seen| && seen[v])
    && (forall v: nat :: v < |seen| && seen[v] && v !in low ==> Closed(ca, t, seen, v) && t.vardata[v].level % 32 in levels)
  }

  lemma GrownMore(ca: map<CRef, Clause>, t: State, low: set<nat>, levels: set<nat>, seen0: seq<bool>, seen: seq<bool>)
    requires Grown(ca, t, low, levels, seen0) && Marks(seen0, seen) && OnLevels(t, levels, seen0, seen)
    requires forall v: nat :: v < |seen| && seen[v] && !seen0[v] ==> Closed(ca, t, seen, v)
    ensures Grown(ca, t, low, levels, seen)
  {
    forall v: nat | v < |seen| && seen[v] && v !in low ensures Closed(ca, t, seen, v) && t.vardata[v].level % 32 in levels {
      if seen0[v] { ClosedMore(ca, t, seen0, seen, v); }
    }
  }

  /** From a variable marked beyond `low` a chain stays among such variables. */
  lemma {:induction false} GrownChain(ca: map<CRef, Clause>, t: State, low: set<nat>, levels: set<nat>, seen: seq<bool>, p: nat, chain: seq<nat>, i: nat, j: nat)
    requires Grown(ca, t, low, levels, seen) && Leads(ca, t, low, p, chain) && 0 < i <= j < |chain|
    requires chain[i] < |seen| && seen[chain[i]]
    ensures chain[j] < |seen| && seen[chain[j]] && chain[j] !in low
    decreases j
  {
    assert Open(t, low, chain[j]);
    if i < j {
      GrownChain(ca, t, low, levels, seen, p, chain, i, j - 1);
      var u, v := chain[j - 1], chain[j];
      assert Closed(ca, t, seen, u) && InReason(ca, t, u, v);
      var c := ca[t.vardata[u].reason.value];
      var k :| 1 <= k < |c| && c[k].v == v;
    }
  }

  /** The marks made while other literals were dropped do not change whether a chain gets stuck. */
  lemma GrownNeeded(ca: map<CRef, Clause>, t: State, low: set<nat>, levels: set<nat>, seen: seq<bool>, p: nat)
    requires Grown(ca, t, low, levels, seen)
    ensures Needed(ca, t, Marked(seen), levels, p) <==> Needed(ca, t, low, levels, p)
  {
    if chain :| StuckChain(ca, t, Marked(seen), levels, p, chain) {
      assert StuckChain(ca, t, low, levels, p, chain) by {
        forall i | 0 < i < |chain| ensures Open(t, low, chain[i]) { assert Open(t, Marked(seen), chain[i]); }
      }
    }
    if chain :| StuckChain(ca, t, low, levels, p, chain) {
      assert StuckChain(ca, t, Marked(seen), levels, p, chain) by {
        forall i | 0 < i < |chain| ensures Open(t, Marked(seen), chain[i]) {
          assert Open(t, low, chain[i]);
          if chain[i] in Marked(seen) {
            GrownChain(ca, t, low, levels, seen, p, chain, i, |chain| - 1);
          }
        }
      }
    }
  }

  /** `levels` has the levels, modulo 32, of the literals of `out` from index 1 up to `i`. */
  ghost predicate LevelsRead(t: State, out: seq<Lit>, i: nat, levels: set<nat>) {
    && 1 <= i <= |out|
    && (forall k :: 1 <= k < i ==> out[k].v < |t.vardata| && t.vardata[out[k].v].level % 32 in levels)
    && (forall n :: n in levels ==> exists k :: 1 <= k < i && out[k].v < |t.vardata| && t.vardata[out[k].v].level % 32 == n)
  }

  lemma AllLevelsRead(t: State, out: seq<Lit>, low: set<nat>, levels: set<nat>)
    requires Lists(t, out, low) && LevelsRead(t, out, |out|, levels)
    ensures levels == LevelsOf(t, low)
  {
    forall n | n in LevelsOf(t, low) ensures n in levels {
      var v :| v in low && v < |t.vardata| && t.vardata[v].level % 32 == n;
      var k :| 1 <= k < |out| && out[k].v == v;
    }
  }

  lemma StartGrown(ca: map<CRef, Clause>, t: State, seen: seq<bool>, low: set<nat>, out: seq<Lit>, levels: set<nat>)
    requires Frontier(t, seen, {}, low) && |out| >= 1
    ensures Grown(ca, t, low, levels, seen) && Sifted(ca, t, low, out, [out[0]], 1)
  {
  }

  lemma EssentialExactly(ca: map<CRef, Clause>, t: State, low: set<nat>, v: nat)
    requires v < |t.vardata|
    ensures Essential(ca, t, low, v) <==> t.vardata[v].reason.None? || Needed(ca, t, low, LevelsOf(t, low), v)
  {
  }

  /** Of `out[1..i]`, the part `r[1..]` has the literals that cannot be left out. */
  ghost predicate Sifted(ca: map<CRef, Clause>, t: State, low: set<nat>, out: seq<Lit>, r: seq<Lit>, i: nat) {
    && 1 <= i <= |out| && |r| >= 1
    && (forall k :: 1 <= k < |r| ==> r[k] in out[1..i] && Essential(ca, t, low, r[k].v))
    && (forall k :: 1 <= k < i && Essential(ca, t, low, out[k].v) ==> out[k] in r[1..])
  }

  lemma SiftDrop(ca: map<CRef, Clause>, t: State, low: set<nat>, out: seq<Lit>, r: seq<Lit>, i: nat)
    requires Sifted(ca, t, low, out, r, i) && i < |out| && !Essential(ca, t, low, out[i].v)
    ensures Sifted(ca, t, low, out, r, i + 1)
  {
    hide Essential;
    assert out[1..i + 1] == out[1..i] + [out[i]];
  }

  lemma SiftKeep(ca: map<CRef, Clause>, t: State, low: set<nat>, out: seq<Lit>, r: seq<Lit>, i: nat)
    requires Sifted(ca, t, low, out, r, i) && i < |out| && Essential(ca, t, low, out[i].v)
    ensures Sifted(ca, t, low, out, r + [out[i]], i + 1)
  {
    hide Essential;
    assert out[1..i + 1] == out[1..i] + [out[i]];
    assert (r + [out[i]])[1..] == r[1..] + [out[i]];
  }

  /** The kept literals are the false literals of the kept variables of `low`. */
  lemma SiftDone(ca: map<CRef, Clause>, t: State, low: set<nat>, out: seq<Lit>, r: seq<Lit>)
    requires Sifted(ca, t, low, out, r, |out|) && Lists(t, out, low)
    ensures forall l :: l in r[1..] <==> IsFalse(t, l) && l.v in low && Essential(ca, t, low, l.v)
  {
    hide Essential;
    assert out[1..|out|] == out[1..];
    forall l | l in r[1..] ensures IsFalse(t, l) && l.v in low && Essential(ca, t, low, l.v) {
      var k :| 0 <= k < |r[1..]| && r[1..][k] == l;
      assert r[k + 1] == l;
      var j :| 0 <= j < |out[1..]| && out[1..][j] == l;
      assert out[j + 1] == l;
    }
    forall l | IsFalse(t, l) && l.v in low && Essential(ca, t, low, l.v) ensures l in r[1..] {
      var k :| 1 <= k < |out| && out[k].v == l.v;
      assert out[k] == l;
    }
  }

  // ----- the first unique implication point -----

  /** A chain of variables of the current level that starts in the conflicting clause. */
  ghost predicate FromConflict(ca: map<CRef, Clause>, t: State, confl: CRef, chain: seq<nat>) {
    && |chain| > 0 && confl in ca && Names(ca[confl], 0, chain[0]) && Linked(ca, t, chain)
    && forall i :: 0 <= i < |chain| ==> AtLevel(t, chain[i], |t.lim|)
  }

  /** A chain from the conflict that gets behind `u` on the trail without meeting it. */
  ghost predicate Bypass(ca: map<CRef, Clause>, t: State, confl: CRef, u: nat, chain: seq<nat>) {
    && FromConflict(ca, t, confl, chain) && u !in chain && u < |t.pos|
    && var v := chain[|chain| - 1]; v < |t.pos| && t.pos[v] < t.pos[u]
  }

  ghost predicate ReachedOnly(ca: map<CRef, Clause>, t: State, confl: CRef, via: set<nat>, v: nat) {
    exists chain :: FromConflict(ca, t, confl, chain) && chain[|chain| - 1] == v && forall i :: 0 <= i < |chain| - 1 ==> chain[i] in via
  }

  /** The conflict leads to `v`, and nowhere before it on its level but through it. */
  ghost predicate ImplicationPoint(ca: map<CRef, Clause>, t: State, confl: CRef, v: nat) {
    && (exists chain :: FromConflict(ca, t, confl, chain) && chain[|chain| - 1] == v)
    && forall chain :: !Bypass(ca, t, confl, v, chain)
  }

  /** `v` is an implication point, and no variable after it on the trail is one. */
  ghost predicate FirstUip(ca: map<CRef, Clause>, t: State, confl: CRef, v: nat) {
    && ImplicationPoint(ca, t, confl, v) && v < |t.pos|
    && forall u: nat :: u < |t.pos| && t.pos[u] > t.pos[v] ==> !ImplicationPoint(ca, t, confl, u)
  }

  /** The conflict leads to `w` without meeting `u`. */
  ghost predicate Above(ca: map<CRef, Clause>, t: State, confl: CRef, u: nat, w: nat) {
    exists chain :: FromConflict(ca, t, confl, chain) && chain[|chain| - 1] == w && u !in chain
  }

  ghost predicate Beside(ca: map<CRef, Clause>, t: State, confl: CRef, u: nat, v: nat) {
    (confl in ca && Names(ca[confl], 0, v)) || exists w: nat :: Above(ca, t, confl, u, w) && InReason(ca, t, w, v)
  }

  /** The variables between level 0 and the current one that the conflict, or a reason above the
      implication point `u`, names. */
  ghost function Lower(ca: map<CRef, Clause>, t: State, confl: CRef, u: nat): set<nat> {
    set v: nat | v < |t.vardata| && 0 < t.vardata[v].level < |t.lim| && Beside(ca, t, confl, u, v)
  }

  ghost predicate ReasonIn(ca: map<CRef, Clause>, t: State, u: nat, vs: set<nat>) {
    && u < |t.vardata| && t.vardata[u].reason.Some? && t.vardata[u].reason.value in ca
    && CoveredFrom(t, ca[t.vardata[u].reason.value], 1, vs)
  }

  ghost predicate Seen(ca: map<CRef, Clause>, t: State, confl: CRef, absorbed: set<nat>, v: nat) {
    (confl in ca && Names(ca[confl], 0, v)) || exists w: nat :: w in absorbed && InReason(ca, t, w, v)
  }

  /** The state of the resolution: `done` were taken off the trail, the conflict and the reasons of `absorbed`
      were worked in; `cur` and `low` are marked. */
  ghost predicate Tracing(ca: map<CRef, Clause>, t: State, confl: CRef, done: set<nat>, absorbed: set<nat>, cur: set<nat>, low: set<nat>, index: int) {
    && confl in ca && absorbed <= done
    && (forall v :: v in cur + done ==> AtLevel(t, v, |t.lim|) && ReachedOnly(ca, t, confl, absorbed, v))
    && CoveredFrom(t, ca[confl], 0, done + cur + low)
    && (forall u :: u in absorbed ==> ReasonIn(ca, t, u, done + cur + low) && !ImplicationPoint(ca, t, confl, u))
    && (forall v :: v in low ==> v < |t.vardata| && 0 < t.vardata[v].level < |t.lim| && Seen(ca, t, confl, absorbed, v))
    && (forall v :: v in done ==> v < |t.pos| && index <= t.pos[v])
    && (forall v :: v in cur ==> v < |t.pos| && t.pos[v] < index)
  }

  /** The marked variables are the ones marked before and others that `c` names from index `start` on. */
  ghost predicate MarkedFrom(c: Clause, start: nat, before: set<nat>, after: set<nat>) {
    before <= after && forall v :: v in after && v !in before ==> Names(c, start, v)
  }

  ghost predicate Layered(t: State, cur: set<nat>, low: set<nat>, index: int) {
    && (forall v :: v in cur ==> AtLevel(t, v, |t.lim|) && v < |t.pos| && t.pos[v] < index)
    && (forall v :: v in low ==> v < |t.vardata| && 0 < t.vardata[v].level < |t.lim|)
  }

  lemma CoveredMore(t: State, c: Clause, start: nat, vs: set<nat>, more: set<nat>)
    requires CoveredFrom(t, c, start, vs) && vs <= more
    ensures CoveredFrom(t, c, start, more)
  {
  }

  lemma NothingRead(t: State, c: Clause, start: nat, cur: set<nat>, low: set<nat>)
    requires start <= |c|
    ensures CoveredFrom(t, c[..start], start, cur + low) && MarkedFrom(c, start, cur + low, cur + low)
  {
  }

  lemma CoveredStep(t: State, c: Clause, start: nat, j: nat, vs: set<nat>, more: set<nat>)
    requires start <= j < |c| && CoveredFrom(t, c[..j], start, vs) && vs <= more && (c[j].v in more || TopFalse(t, c[j]))
    ensures CoveredFrom(t, c[..j + 1], start, more)
  {
    var d := c[..j + 1];
    forall k | start <= k < |d| ensures d[k].v in more || TopFalse(t, d[k]) {
      if k < j { assert c[..j][k] == d[k]; }
    }
  }

  /** The tail of a clause has the same literals after two of them were swapped. */
  lemma SwapTail(c: Clause, i: nat)
    requires 1 <= i < |c|
    ensures forall l :: l in Swapped(c, 1, i)[1..] <==> l in c[1..]
  {
    var d := Swapped(c, 1, i);
    forall l | l in d[1..] ensures l in c[1..] {
      var k :| 0 <= k < |d[1..]| && d[1..][k] == l;
      assert l == c[1..][if k + 1 == 1 then i - 1 else if k + 1 == i then 0 else k];
    }
    forall l | l in c[1..] ensures l in d[1..] {
      var k :| 0 <= k < |c[1..]| && c[1..][k] == l;
      assert l == d[1..][if k + 1 == 1 then i - 1 else if k + 1 == i then 0 else k];
    }
  }

  lemma MarkedFromMore(c: Clause, start: nat, before: set<nat>, cur: set<nat>, low: set<nat>, k: nat)
    requires MarkedFrom(c, start, before, cur + low) && start <= k < |c|
    ensures MarkedFrom(c, start, before, cur + {c[k].v} + low) && MarkedFrom(c, start, before, cur + (low + {c[k].v}))
  {
    assert Names(c, start, c[k].v);
  }

  lemma FrontierLayered(t: State, seen: seq<bool>, cur: set<nat>, low: set<nat>, index: int)
    requires Frontier(t, seen, cur, low) && AllBefore(t, cur, index)
    ensures Layered(t, cur, low, index)
  {
  }

  /** Working in the conflict. */
  lemma TraceStart(ca: map<CRef, Clause>, t: State, confl: CRef, cur: set<nat>, low: set<nat>, index: int)
    requires confl in ca && Layered(t, cur, low, index)
    requires CoveredFrom(t, ca[confl], 0, cur + low) && MarkedFrom(ca[confl], 0, {}, cur + low)
    ensures Tracing(ca, t, confl, {}, {}, cur, low, index)
  {
    forall v | v in cur ensures ReachedOnly(ca, t, confl, {}, v) {
      assert FromConflict(ca, t, confl, [v]);
    }
    assert {} + cur + low == cur + low;
  }

  lemma ReachedMore(ca: map<CRef, Clause>, t: State, confl: CRef, via: set<nat>, u: nat, v: nat)
    requires ReachedOnly(ca, t, confl, via, u)
    ensures ReachedOnly(ca, t, confl, via + {v}, u)
    ensures u == v || u in via ==> forall w: nat :: InReason(ca, t, u, w) && AtLevel(t, w, |t.lim|) ==> ReachedOnly(ca, t, confl, via + {v}, w)
  {
    var chain :| FromConflict(ca, t, confl, chain) && chain[|chain| - 1] == u && forall i :: 0 <= i < |chain| - 1 ==> chain[i] in via;
    if u == v || u in via {
      forall w: nat | InReason(ca, t, u, w) && AtLevel(t, w, |t.lim|) ensures ReachedOnly(ca, t, confl, via + {v}, w) {
        var longer := chain + [w];
        assert FromConflict(ca, t, confl, longer) by {
          forall i | 0 < i < |longer| ensures InReason(ca, t, longer[i - 1], longer[i]) {
            if i < |chain| { assert InReason(ca, t, chain[i - 1], chain[i]); }
          }
        }
        assert longer[|longer| - 1] == w;
      }
    }
  }

  /** Working in the reason of `p`, the variable taken off last. */
  lemma TraceAbsorb(ca: map<CRef, Clause>, t: State, confl: CRef, done: set<nat>, p: nat, cur0: set<nat>, low0: set<nat>, cur: set<nat>, low: set<nat>, index: int)
    requires p !in done && Tracing(ca, t, confl, done + {p}, done, cur0, low0, index)
    requires p < |t.vardata| && t.vardata[p].reason.Some? && t.vardata[p].reason.value in ca
    requires !ImplicationPoint(ca, t, confl, p) && Layered(t, cur, low, index) && cur0 <= cur && low0 <= low
    requires CoveredFrom(t, ca[t.vardata[p].reason.value], 1, cur + low) && MarkedFrom(ca[t.vardata[p].reason.value], 1, cur0 + low0, cur + low)
    ensures Tracing(ca, t, confl, done + {p}, done + {p}, cur, low, index)
  {
    hide ImplicationPoint, ReachedOnly, CoveredFrom, Names;
    var all := done + {p};
    CoveredMore(t, ca[confl], 0, all + cur0 + low0, all + cur + low);
    CoveredMore(t, ca[t.vardata[p].reason.value], 1, cur + low, all + cur + low);
    forall v | v in cur + all ensures ReachedOnly(ca, t, confl, all, v) {
      if v in cur0 + all {
        ReachedMore(ca, t, confl, done, v, p);
      } else {
        assert v in cur + low && v !in low0;
        ReachedMore(ca, t, confl, done, p, p);
        assert InReason(ca, t, p, v);
      }
    }
    forall u | u in all ensures ReasonIn(ca, t, u, all + cur + low) {
      if u in done {
        CoveredMore(t, ca[t.vardata[u].reason.value], 1, all + cur0 + low0, all + cur + low);
      }
    }
    forall v | v in low ensures Seen(ca, t, confl, all, v) {
      if v in low0 {
        if w :| w in done && InReason(ca, t, w, v) { assert w in all; }
      } else {
        assert v in cur + low && v !in cur0;
        assert InReason(ca, t, p, v) && p in all;
      }
    }
  }

  /** Taking the last marked variable of the current level off. */
  lemma TraceTake(ca: map<CRef, Clause>, t: State, confl: CRef, done: set<nat>, q: nat, cur: set<nat>, low: set<nat>, bound: int)
    requires Tracing(ca, t, confl, done, done, cur, low, bound) && q in cur && q < |t.pos|
    requires AllBefore(t, cur - {q}, t.pos[q])
    ensures q !in done && q < |t.pos| && Tracing(ca, t, confl, done + {q}, done, cur - {q}, low, t.pos[q])
    ensures cur - {q} != {} ==> !ImplicationPoint(ca, t, confl, q)
  {
    hide ReachedOnly, ImplicationPoint, CoveredFrom, Names, Seen;
    var all := done + {q};
    assert all + (cur - {q}) + low == done + cur + low;
    assert forall v :: v in (cur - {q}) + all ==> v in cur + done;
    if cur - {q} != {} {
      var w :| w in cur - {q};
      Bypassed(ca, t, confl, done, q, w);
    }
  }

  lemma Bypassed(ca: map<CRef, Clause>, t: State, confl: CRef, done: set<nat>, q: nat, w: nat)
    requires ReachedOnly(ca, t, confl, done, w) && q !in done && w != q && q < |t.pos| && w < |t.pos| && t.pos[w] < t.pos[q]
    ensures !ImplicationPoint(ca, t, confl, q)
  {
    var chain :| FromConflict(ca, t, confl, chain) && chain[|chain| - 1] == w && forall i :: 0 <= i < |chain| - 1 ==> chain[i] in done;
    assert Bypass(ca, t, confl, q, chain);
  }

  /** Positions fall along a chain from the conflict. */
  lemma {:induction false} ChainFalls(ca: map<CRef, Clause>, t: State, confl: CRef, chain: seq<nat>, i: nat, j: nat)
    requires ReasonsOk(ca, t) && FromConflict(ca, t, confl, chain) && i <= j < |chain|
    requires forall k :: 0 <= k < |ca[confl]| ==> IsFalse(t, ca[confl][k])
    ensures Assigned(t, chain[j]) && Assigned(t, chain[i]) && (i < j ==> t.pos[chain[j]] < t.pos[chain[i]])
    decreases j
  {
    if j == 0 {
      var k :| 0 <= k < |ca[confl]| && ca[confl][k].v == chain[0];
    } else {
      ChainFalls(ca, t, confl, chain, if i < j then i else j - 1, j - 1);
      var u := chain[j - 1];
      assert InReason(ca, t, u, chain[j]);
      assert ReasonOk(ca, t, t.pos[u]);
      var c := ca[t.vardata[u].reason.value];
      var k :| 1 <= k < |c| && c[k].v == chain[j];
    }
  }

  /** In the end every variable that the conflict leads to without meeting `p` has been worked in. */
  lemma {:induction false} ChainAbsorbed(ca: map<CRef, Clause>, t: State, confl: CRef, done: set<nat>, p: nat, low: set<nat>, index: int, chain: seq<nat>, i: nat)
    requires Tracing(ca, t, confl, done + {p}, done, {}, low, index) && |t.lim| > 0
    requires FromConflict(ca, t, confl, chain) && p !in chain && i < |chain|
    ensures chain[i] in done
  {
    hide ImplicationPoint, ReachedOnly, Seen;
    var v := chain[i];
    if i == 0 {
      NamedDone(t, ca[confl], 0, done + {p}, low, v);
    } else {
      ChainAbsorbed(ca, t, confl, done, p, low, index, chain, i - 1);
      assert InReason(ca, t, chain[i - 1], v);
      NamedDone(t, ca[t.vardata[chain[i - 1]].reason.value], 1, done + {p}, low, v);
    }
  }

  lemma NamedDone(t: State, c: Clause, start: nat, done: set<nat>, low: set<nat>, v: nat)
    requires CoveredFrom(t, c, start, done + {} + low) && Names(c, start, v) && v < |t.vardata| && t.vardata[v].level > 0
    ensures v in done + low
  {
    var k :| start <= k < |c| && c[k].v == v;
  }

  /** The resolution ends at the first unique implication point, with the lower variables marked. */
  lemma TraceEnd(ca: map<CRef, Clause>, t: State, confl: CRef, done: set<nat>, p: nat, low: set<nat>)
    requires ReasonsOk(ca, t) && |t.lim| > 0 && p !in done && p < |t.pos|
    requires Tracing(ca, t, confl, done + {p}, done, {}, low, t.pos[p])
    requires forall k :: 0 <= k < |ca[confl]| ==> IsFalse(t, ca[confl][k])
    ensures FirstUip(ca, t, confl, p) && low == Lower(ca, t, confl, p)
  {
    EndsAtPoint(ca, t, confl, done, p, low);
    EndsAtFirst(ca, t, confl, done, p, low);
    EndsWithLower(ca, t, confl, done, p, low);
  }

  lemma EndsAtPoint(ca: map<CRef, Clause>, t: State, confl: CRef, done: set<nat>, p: nat, low: set<nat>)
    requires |t.lim| > 0 && p !in done && p < |t.pos|
    requires Tracing(ca, t, confl, done + {p}, done, {}, low, t.pos[p])
    ensures ImplicationPoint(ca, t, confl, p)
  {
    assert ReachedOnly(ca, t, confl, done, p);
    forall chain | FromConflict(ca, t, confl, chain) && p !in chain ensures !Bypass(ca, t, confl, p, chain) {
      ChainAbsorbed(ca, t, confl, done, p, low, t.pos[p], chain, |chain| - 1);
      assert chain[|chain| - 1] in done + {p};
    }
  }

  lemma EndsAtFirst(ca: map<CRef, Clause>, t: State, confl: CRef, done: set<nat>, p: nat, low: set<nat>)
    requires ReasonsOk(ca, t) && |t.lim| > 0 && p !in done && p < |t.pos|
    requires Tracing(ca, t, confl, done + {p}, done, {}, low, t.pos[p])
    requires forall k :: 0 <= k < |ca[confl]| ==> IsFalse(t, ca[confl][k])
    ensures forall u: nat :: u < |t.pos| && t.pos[u] > t.pos[p] ==> !ImplicationPoint(ca, t, confl, u)
  {
    forall u: nat | u < |t.pos| && t.pos[u] > t.pos[p] ensures !ImplicationPoint(ca, t, confl, u) {
      if ImplicationPoint(ca, t, confl, u) {
        var chain :| FromConflict(ca, t, confl, chain) && chain[|chain| - 1] == u;
        if p in chain {
          var i :| 0 <= i < |chain| && chain[i] == p;
          ChainFalls(ca, t, confl, chain, i, |chain| - 1);
        } else {
          ChainAbsorbed(ca, t, confl, done, p, low, t.pos[p], chain, |chain| - 1);
        }
      }
    }
  }

  lemma EndsWithLower(ca: map<CRef, Clause>, t: State, confl: CRef, done: set<nat>, p: nat, low: set<nat>)
    requires |t.lim| > 0 && p !in done && p < |t.pos|
    requires Tracing(ca, t, confl, done + {p}, done, {}, low, t.pos[p])
    ensures low == Lower(ca, t, confl, p)
  {
    hide ImplicationPoint, CoveredFrom, Names, InReason;
    forall v | v in low ensures Beside(ca, t, confl, p, v) {
      LowBeside(ca, t, confl, done, p, v);
    }
    forall v: nat | v < |t.vardata| && 0 < t.vardata[v].level < |t.lim| && Beside(ca, t, confl, p, v) ensures v in low {
      BesideLow(ca, t, confl, done, p, low, v);
    }
  }

  lemma LowBeside(ca: map<CRef, Clause>, t: State, confl: CRef, done: set<nat>, p: nat, v: nat)
    requires Seen(ca, t, confl, done, v) && p !in done
    requires forall w :: w in done ==> ReachedOnly(ca, t, confl, done, w)
    ensures Beside(ca, t, confl, p, v)
  {
    hide Names, InReason, Linked;
    if w :| w in done && InReason(ca, t, w, v) {
      var chain :| FromConflict(ca, t, confl, chain) && chain[|chain| - 1] == w && forall i :: 0 <= i < |chain| - 1 ==> chain[i] in done;
      assert p !in chain;
      assert Above(ca, t, confl, p, w);
    }
  }

  lemma BesideLow(ca: map<CRef, Clause>, t: State, confl: CRef, done: set<nat>, p: nat, low: set<nat>, v: nat)
    requires |t.lim| > 0 && p !in done && p < |t.pos|
    requires Tracing(ca, t, confl, done + {p}, done, {}, low, t.pos[p])
    requires v < |t.vardata| && 0 < t.vardata[v].level < |t.lim| && Beside(ca, t, confl, p, v)
    ensures v in low
  {
    hide ImplicationPoint, ReachedOnly, Seen;
    forall u | u in done + {p} ensures AtLevel(t, u, |t.lim|) { assert u in {} + (done + {p}); }
    if Names(ca[confl], 0, v) {
      NamedDone(t, ca[confl], 0, done + {p}, low, v);
    } else {
      var w: nat :| Above(ca, t, confl, p, w) && InReason(ca, t, w, v);
      var chain :| FromConflict(ca, t, confl, chain) && chain[|chain| - 1] == w && p !in chain;
      ChainAbsorbed(ca, t, confl, done, p, low, t.pos[p], chain, |chain| - 1);
      NamedDone(t, ca[t.vardata[w].reason.value], 1, done + {p}, low, v);
    }
  }

  /** The state before a clause is worked in: the conflict at first, then the reason of `p`. */
  ghost predicate Traced(ca: map<CRef, Clause>, t: State, confl: CRef, p: Option<Lit>, done: set<nat>, cur: set<nat>, low: set<nat>, index: int) {
    match p
    case None => confl in ca && done == cur == low == {}
    case Some(q) => q.v !in done && q.v < |t.pos| && index == t.pos[q.v] && Tracing(ca, t, confl, done + {q.v}, done, cur, low, index)
  }

  ghost function Through(p: Option<Lit>, done: set<nat>): set<nat> {
    match p
    case None => done
    case Some(q) => done + {q.v}
  }

  ghost function FirstIndex(p: Option<Lit>): nat {
    if p.None? then 0 else 1
  }

  /** The clause that is worked in next. */
  ghost predicate NextClause(ca: map<CRef, Clause>, t: State, confl0: CRef, p: Option<Lit>, confl: CRef) {
    match p
    case None => confl == confl0
    case Some(q) => q.v < |t.vardata| && t.vardata[q.v].reason == Some(confl) && !ImplicationPoint(ca, t, confl0, q.v)
  }

  /** The reason of `p`, at `index` of the trail, is worked in next. */
  ghost predicate HasNext(ca: map<CRef, Clause>, t: State, confl0: CRef, p: Lit, index: nat) {
    && p.v < |t.vardata| && t.vardata[p.v].reason.Some? && t.vardata[p.v].reason.value in ca
    && IsReason(t, ca[t.vardata[p.v].reason.value], index) && NextClause(ca, t, confl0, Some(p), t.vardata[p.v].reason.value)
  }

  lemma NextReason(ca: map<CRef, Clause>, t: State, confl0: CRef, p: Lit, index: nat, cur: set<nat>)
    requires ReasonsOk(ca, t) && DecisionsFirst(t) && index < |t.trail| && |t.lim| > 0 && t.trail[index] == p && AtLevel(t, p.v, |t.lim|)
    requires |cur| > 0 && AllBefore(t, cur, index) && !ImplicationPoint(ca, t, confl0, p.v)
    requires forall v :: v in cur ==> Assigned(t, v) && AtLevel(t, v, |t.lim|)
    ensures HasNext(ca, t, confl0, p, index)
  {
    hide ReasonsOk, DecisionsFirst, AllBefore, ImplicationPoint, IsReason;
    HasReason(ca, t, index, cur);
  }

  lemma TraceTurn(ca: map<CRef, Clause>, t: State, confl0: CRef, p: Option<Lit>, confl: CRef, done: set<nat>, cur0: set<nat>, low0: set<nat>, cur: set<nat>, low: set<nat>, index: int)
    requires Traced(ca, t, confl0, p, done, cur0, low0, index) && confl in ca && NextClause(ca, t, confl0, p, confl)
    requires Layered(t, cur, low, index) && cur0 <= cur && low0 <= low
    requires CoveredFrom(t, ca[confl], FirstIndex(p), cur + low) && MarkedFrom(ca[confl], FirstIndex(p), cur0 + low0, cur + low)
    ensures Tracing(ca, t, confl0, Through(p, done), Through(p, done), cur, low, index)
  {
    hide Tracing, ImplicationPoint, CoveredFrom, MarkedFrom, Layered;
    if p.None? {
      assert cur0 + low0 == {};
      TraceStart(ca, t, confl, cur, low, index);
    } else {
      TraceAbsorb(ca, t, confl0, done, p.value.v, cur0, low0, cur, low, index);
    }
  }

  lemma TracedStart(ca: map<CRef, Clause>, t: State, confl: CRef, index: int)
    requires confl in ca
    ensures Traced(ca, t, confl, None, {}, {}, {}, index) && NextClause(ca, t, confl, None, confl)
  {
  }

  lemma TracedEnd(ca: map<CRef, Clause>, t: State, confl: CRef, p: Option<Lit>, done: set<nat>, low: set<nat>, index: int)
    requires ReasonsOk(ca, t) && |t.lim| > 0 && p.Some? && confl in ca && Traced(ca, t, confl, p, done, {}, low, index)
    requires forall k :: 0 <= k < |ca[confl]| ==> IsFalse(t, ca[confl][k])
    ensures FirstUip(ca, t, confl, p.value.v) && low == Lower(ca, t, confl, p.value.v)
  {
    TraceEnd(ca, t, confl, done, p.value.v, low);
  }

  /** The clause learnt from a conflict: the first unique implication point, then exactly the false literals
      of the lower variables that cannot be left out. */
  ghost predicate LearntFrom(ca: map<CRef, Clause>, t: State, confl: CRef, out: Clause) {
    && |out| >= 1 && FirstUip(ca, t, confl, out[0].v)
    && var low := Lower(ca, t, confl, out[0].v);
       forall l :: l in out[1..] <==> IsFalse(t, l) && l.v in low && Essential(ca, t, low, l.v)
  }
}
