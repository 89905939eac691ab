/** The assignment stack of the solver: values, levels, reasons, and how enqueueing,
    opening a level and backtracking act on them. */
module Trail {
  import opened Cnf

  datatype LBool = LTrue | LFalse | LUndef

  type CRef = nat

  datatype VarData = VarData(reason: Option<CRef>, level: nat)

  /** A snapshot of the assignment-related fields of the solver. `pos[v]` is the place of an
      assigned variable on the trail. Places before `floor` are not propagated any more: the theory was
      refuted there, and only what comes later is looked at. */
  datatype State = State(assigns: seq<LBool>, vardata: seq<VarData>, trail: seq<Lit>,
                         lim: seq<nat>, pos: seq<nat>, floor: nat)

  function ValueOf(b: LBool, neg: bool): LBool {
    match b
    case LUndef => LUndef
    case LTrue => if neg then LFalse else LTrue
    case LFalse => if neg then LTrue else LFalse
  }

  predicate IsTrue(t: State, l: Lit) {
    l.v < |t.assigns| && t.assigns[l.v] == if l.neg then LFalse else LTrue
  }

  predicate IsFalse(t: State, l: Lit) {
    l.v < |t.assigns| && t.assigns[l.v] == if l.neg then LTrue else LFalse
  }

  predicate InRange(t: State, c: Clause) {
    forall i :: 0 <= i < |c| ==> c[i].v < |t.assigns|
  }

  predicate LevelFits(t: State, i: nat, lev: nat) {
    && lev <= |t.lim|
    && (lev > 0 ==> t.lim[lev - 1] <= i)
    && (lev < |t.lim| ==> i < t.lim[lev])
  }

  /** Values, positions and levels agree with the trail and its level limits. */
  ghost predicate Wf(t: State) {
    && |t.assigns| == |t.vardata| == |t.pos|
    && (forall i :: 0 <= i < |t.trail| ==>
          IsTrue(t, t.trail[i]) && t.pos[t.trail[i].v] == i && LevelFits(t, i, t.vardata[t.trail[i].v].level))
    && (forall v :: 0 <= v < |t.assigns| && t.assigns[v] != LUndef ==>
          t.pos[v] < |t.trail| && t.trail[t.pos[v]].v == v)
    && (forall k :: 0 <= k < |t.lim| ==> t.lim[k] <= |t.trail|)
    && (forall j, k :: 0 <= j < k < |t.lim| ==> t.lim[j] <= t.lim[k])
  }

  /** No variable is on the trail twice. */
  lemma TrailDistinct(t: State)
    requires Wf(t)
    ensures DistinctVars(t.trail) && forall l :: l in t.trail ==> l.v < |t.assigns|
  {
  }

  /** `c` implied `c[0]` at trail position `i`: its other literals were falsified before. */
  ghost predicate IsReason(t: State, c: Clause, i: nat) {
    && i < |t.trail| && |t.assigns| == |t.pos|
    && |c| > 0 && c[0] == t.trail[i]
    && forall k :: 1 <= k < |c| ==> IsFalse(t, c[k]) && t.pos[c[k].v] < i
  }

  ghost predicate ReasonOk(ca: map<CRef, Clause>, t: State, i: nat)
    requires Wf(t) && i < |t.trail|
  {
    var d := t.vardata[t.trail[i].v];
    match d.reason
    case None => true
    case Some(cr) => cr in ca && IsReason(t, ca[cr], i)
  }

  /** A literal without a reason above level 0 opens its level. */
  ghost predicate DecisionsFirst(t: State) {
    |t.assigns| == |t.vardata| && forall i :: 0 <= i < |t.trail| && t.trail[i].v < |t.vardata| ==>
      var d := t.vardata[t.trail[i].v];
      d.reason.None? && 0 < d.level <= |t.lim| ==> t.lim[d.level - 1] == i
  }

  /** Implied trail literals have the reasons they name. */
  ghost predicate ReasonsOk(ca: map<CRef, Clause>, t: State) {
    Wf(t) && forall i :: 0 <= i < |t.trail| ==> ReasonOk(ca, t, i)
  }

  function Enq(t: State, l: Lit, from: Option<CRef>): State
    requires l.v < |t.assigns| == |t.vardata| == |t.pos|
  {
    State(t.assigns[l.v := if l.neg then LFalse else LTrue], t.vardata[l.v := VarData(from, |t.lim|)],
          t.trail + [l], t.lim, t.pos[l.v := |t.trail|], t.floor)
  }

  function NewLevel(t: State): State {
    t.(lim := t.lim + [|t.trail|])
  }

  function CancelTo(t: State, level: nat): State
    requires |t.assigns| == |t.pos|
    requires level < |t.lim| && t.lim[level] <= |t.trail|
  {
    t.(assigns := seq(|t.assigns|, v requires 0 <= v < |t.assigns| =>
                        if t.pos[v] < t.lim[level] then t.assigns[v] else LUndef),
       trail := t.trail[..t.lim[level]],
       lim := t.lim[..level])
  }

  lemma TrueFacts(t: State, l: Lit)
    requires Wf(t) && (IsTrue(t, l) || IsFalse(t, l))
    ensures t.pos[l.v] < |t.trail| && LevelFits(t, t.pos[l.v], t.vardata[l.v].level)
    ensures IsTrue(t, l) ==> t.trail[t.pos[l.v]] == l
    ensures IsFalse(t, l) ==> t.trail[t.pos[l.v]] == l.Not()
  {
  }

  lemma EnqWf(t: State, l: Lit, from: Option<CRef>)
    requires Wf(t) && l.v < |t.assigns| && t.assigns[l.v] == LUndef
    ensures Wf(Enq(t, l, from))
    ensures forall q :: IsTrue(t, q) ==> IsTrue(Enq(t, l, from), q)
    ensures forall q :: IsFalse(t, q) ==> IsFalse(Enq(t, l, from), q)
    ensures IsTrue(Enq(t, l, from), l)
  {
    var t' := Enq(t, l, from);
    forall i | 0 <= i < |t'.trail|
      ensures IsTrue(t', t'.trail[i]) && t'.pos[t'.trail[i].v] == i && LevelFits(t', i, t'.vardata[t'.trail[i].v].level)
    {
      if i < |t.trail| {
        assert t.trail[i].v != l.v;
        assert LevelFits(t, i, t.vardata[t.trail[i].v].level);
      }
    }
  }

  lemma EnqReasons(ca: map<CRef, Clause>, t: State, l: Lit, from: Option<CRef>)
    requires ReasonsOk(ca, t) && l.v < |t.assigns| && t.assigns[l.v] == LUndef
    requires from.Some? ==> from.value in ca && |ca[from.value]| > 0 && ca[from.value][0] == l
    requires from.Some? ==> forall k :: 1 <= k < |ca[from.value]| ==> IsFalse(t, ca[from.value][k])
    ensures ReasonsOk(ca, Enq(t, l, from))
  {
    EnqWf(t, l, from);
    var t' := Enq(t, l, from);
    forall i | 0 <= i < |t'.trail| ensures ReasonOk(ca, t', i) {
      if i < |t.trail| {
        assert ReasonOk(ca, t, i);
        assert t.trail[i].v != l.v;
        EnqOldReason(ca, t, l, from, i);
      } else if from.Some? {
        forall k | 1 <= k < |ca[from.value]| ensures t'.pos[ca[from.value][k].v] < i {
          assert IsFalse(t, ca[from.value][k]);
        }
      }
    }
  }

  lemma EnqOldReason(ca: map<CRef, Clause>, t: State, l: Lit, from: Option<CRef>, i: nat)
    requires ReasonsOk(ca, t) && l.v < |t.assigns| && t.assigns[l.v] == LUndef && i < |t.trail|
    requires Wf(Enq(t, l, from))
    ensures ReasonOk(ca, Enq(t, l, from), i)
  {
    var t' := Enq(t, l, from);
    assert ReasonOk(ca, t, i);
    var d := t.vardata[t.trail[i].v];
    assert t.trail[i].v != l.v;
    if d.reason.Some? {
      var c := ca[d.reason.value];
      forall k | 1 <= k < |c| ensures IsFalse(t', c[k]) && t'.pos[c[k].v] < i {
        assert IsFalse(t, c[k]);
      }
    }
  }

  lemma NewLevelReasons(ca: map<CRef, Clause>, t: State)
    requires ReasonsOk(ca, t)
    ensures ReasonsOk(ca, NewLevel(t))
  {
    var t' := NewLevel(t);
    forall i | 0 <= i < |t'.trail|
      ensures IsTrue(t', t'.trail[i]) && t'.pos[t'.trail[i].v] == i && LevelFits(t', i, t'.vardata[t'.trail[i].v].level)
    {
      assert IsTrue(t, t.trail[i]) && LevelFits(t, i, t.vardata[t.trail[i].v].level);
    }
    assert Wf(t');
    forall i | 0 <= i < |t'.trail| ensures ReasonOk(ca, t', i) {
      assert ReasonOk(ca, t, i);
      var d := t.vardata[t.trail[i].v];
      if d.reason.Some? {
        var c := ca[d.reason.value];
        forall k | 1 <= k < |c| ensures IsFalse(t', c[k]) && t'.pos[c[k].v] < i { assert IsFalse(t, c[k]); }
      }
    }
  }

  /** Backtracking keeps exactly the literals of the remaining levels. */
  lemma CancelKeeps(t: State, level: nat, l: Lit)
    requires Wf(t) && level < |t.lim|
    ensures var t' := CancelTo(t, level);
      && (IsTrue(t', l) <==> IsTrue(t, l) && t.vardata[l.v].level <= level)
      && (IsFalse(t', l) <==> IsFalse(t, l) && t.vardata[l.v].level <= level)
  {
    if IsTrue(t, l) || IsFalse(t, l) {
      TrueFacts(t, l);
      if t.vardata[l.v].level > level {
        assert t.lim[level] <= t.lim[t.vardata[l.v].level - 1];
      } else if t.vardata[l.v].level < level {
        assert t.lim[t.vardata[l.v].level] <= t.lim[level];
      }
    }
  }

  lemma CancelWf(t: State, level: nat)
    requires Wf(t) && level < |t.lim|
    ensures Wf(CancelTo(t, level))
  {
    var t' := CancelTo(t, level);
    forall i | 0 <= i < |t'.trail|
      ensures IsTrue(t', t'.trail[i]) && t'.pos[t'.trail[i].v] == i && LevelFits(t', i, t'.vardata[t'.trail[i].v].level)
    {
      assert IsTrue(t, t.trail[i]) && LevelFits(t, i, t.vardata[t.trail[i].v].level);
      CancelKeeps(t, level, t.trail[i]);
      var lev := t.vardata[t.trail[i].v].level;
    }
  }

  lemma CancelReasons(ca: map<CRef, Clause>, t: State, level: nat)
    requires ReasonsOk(ca, t) && level < |t.lim|
    ensures ReasonsOk(ca, CancelTo(t, level))
  {
    var t' := CancelTo(t, level);
    CancelWf(t, level);
    forall i | 0 <= i < |t'.trail| ensures ReasonOk(ca, t', i) {
      assert ReasonOk(ca, t, i);
      var d := t.vardata[t.trail[i].v];
      assert IsTrue(t', t'.trail[i]);
      if d.reason.Some? {
        var c := ca[d.reason.value];
        forall k | 1 <= k < |c| ensures IsFalse(t', c[k]) && t'.pos[c[k].v] < i { assert IsFalse(t, c[k]); }
      }
    }
  }

  /** `t'` only adds implied literals to the current level of `t`. */
  ghost predicate Extends(t: State, t': State) {
    && t.lim == t'.lim && t.trail <= t'.trail
    && |t.assigns| == |t'.assigns| == |t.vardata| == |t'.vardata|
    && (forall l :: IsTrue(t, l) ==> IsTrue(t', l) && t'.vardata[l.v] == t.vardata[l.v])
    && (forall i :: |t.trail| <= i < |t'.trail| && t'.trail[i].v < |t'.vardata| ==> t'.vardata[t'.trail[i].v].reason.Some?)
  }

  lemma EnqExtends(t: State, l: Lit, from: Option<CRef>)
    requires Wf(t) && l.v < |t.assigns| && t.assigns[l.v] == LUndef && from.Some?
    ensures Extends(t, Enq(t, l, from))
  {
  }

  lemma ExtendsRefl(t: State)
    requires Wf(t)
    ensures Extends(t, t)
  {
  }

  lemma ExtendsTrans(a: State, b: State, c: State)
    requires Extends(a, b) && Extends(b, c) && Wf(b)
    ensures Extends(a, c)
  {
    forall i | |a.trail| <= i < |c.trail| && c.trail[i].v < |c.vardata| ensures c.vardata[c.trail[i].v].reason.Some? {
      if i < |b.trail| { assert IsTrue(b, b.trail[i]); }
    }
  }

  /** Literals assigned after the last level was opened have the current level. */
  lemma CurrentLevel(t: State, l: Lit)
    requires Wf(t) && IsTrue(t, l) && (|t.lim| > 0 ==> t.lim[|t.lim| - 1] <= t.pos[l.v])
    ensures t.vardata[l.v].level == |t.lim|
  {
    TrueFacts(t, l);
    var lev := t.vardata[l.v].level;
  }

  lemma LevelBound(t: State, l: Lit)
    requires Wf(t) && (IsTrue(t, l) || IsFalse(t, l))
    ensures t.vardata[l.v].level <= |t.lim|
  {
    TrueFacts(t, l);
  }

  lemma TrailLit(t: State, i: nat)
    requires Wf(t) && i < |t.trail|
    ensures IsTrue(t, t.trail[i]) && t.trail[i].v < |t.assigns| && t.pos[t.trail[i].v] == i
  {
  }

  lemma ExtendsFacts(t: State, t': State)
    requires Extends(t, t')
    ensures t.lim == t'.lim && t.trail <= t'.trail && |t.assigns| == |t'.assigns|
  {
  }

  /** The trail holds each variable at most once. */
  lemma TrailShort(t: State)
    requires Wf(t)
    ensures |t.trail| <= |t.assigns|
  {
    var all := UpTo(|t.assigns|);
    PlacesCount(t, |t.trail|);
    assert Vars(t, |t.trail|) <= all by {
      forall v | v in Vars(t, |t.trail|) ensures v in all {
        VarsIn(t, |t.trail|, v);
      }
    }
    SubsetCount(Vars(t, |t.trail|), all);
  }

  function Vars(t: State, i: nat): set<nat>
    requires i <= |t.trail|
  {
    if i == 0 then {} else Vars(t, i - 1) + {t.trail[i - 1].v}
  }

  lemma VarsIn(t: State, i: nat, v: nat)
    requires i <= |t.trail|
    ensures v in Vars(t, i) <==> exists k :: 0 <= k < i && t.trail[k].v == v
  {
  }

  lemma PlacesCount(t: State, i: nat)
    requires Wf(t) && i <= |t.trail|
    ensures |Vars(t, i)| == i
  {
    if i > 0 {
      PlacesCount(t, i - 1);
      VarsIn(t, i - 1, t.trail[i - 1].v);
    }
  }

  function UpTo(n: nat): (r: set<nat>)
    ensures |r| == n && forall v: nat :: v in r <==> v < n
  {
    if n == 0 then {} else UpTo(n - 1) + {n - 1}
  }

  lemma SubsetCount<A>(a: set<A>, b: set<A>)
    requires a <= b
    ensures |a| <= |b|
  {
    assert b == a + (b - a);
  }

  lemma EnqDecisions(t: State, l: Lit, from: Option<CRef>)
    requires Wf(t) && DecisionsFirst(t) && l.v < |t.assigns| && t.assigns[l.v] == LUndef
    requires from.None? && |t.lim| > 0 ==> t.lim[|t.lim| - 1] == |t.trail|
    ensures DecisionsFirst(Enq(t, l, from))
  {
    var t' := Enq(t, l, from);
    forall i | 0 <= i < |t.trail| ensures t'.vardata[t.trail[i].v] == t.vardata[t.trail[i].v] && t'.trail[i] == t.trail[i] {
      assert IsTrue(t, t.trail[i]);
    }
  }

  lemma NewLevelDecisions(t: State)
    requires Wf(t) && DecisionsFirst(t)
    ensures DecisionsFirst(NewLevel(t))
  {
    var t' := NewLevel(t);
    forall i | 0 <= i < |t.trail| ensures t.vardata[t.trail[i].v].level <= |t.lim| {
      assert LevelFits(t, i, t.vardata[t.trail[i].v].level);
    }
  }
}
