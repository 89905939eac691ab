/** Elimination of variables by resolution, and the replay that extends models to the eliminated ones. */
module VariableElimination {
  import opened Cnf
  import opened Subsumption
  import T = Trail
  import C = Clauses

  // ----- partial models -----

  function Val(model: seq<T.LBool>, l: Lit): T.LBool {
    if l.v < |model| then T.ValueOf(model[l.v], l.neg) else T.LUndef
  }

  /** The model makes a literal of the clause true. */
  ghost predicate Satisfied(model: seq<T.LBool>, c: Clause) {
    exists l :: l in c && Val(model, l) == T.LTrue
  }

  ghost predicate SatisfiesAll(model: seq<T.LBool>, cs: set<Clause>) {
    forall c :: c in cs ==> Satisfied(model, c)
  }

  // ----- resolution -----

  /** The literals of a clause over other variables than `v`. */
  function Without(c: Clause, v: nat): set<Lit> {
    set l | l in c && l.v != v
  }

  /** The clauses hold complementary literals of another variable than `v`. */
  ghost predicate Clash(p: Clause, q: Clause, v: nat) {
    exists l :: l in p && l.v != v && l.Not() in q
  }

  lemma ClashSym(p: Clause, q: Clause, v: nat)
    ensures Clash(p, q, v) <==> Clash(q, p, v)
  {
    if Clash(p, q, v) {
      var l :| l in p && l.v != v && l.Not() in q;
      assert l.Not() in q && l.Not().Not() in p;
    }
    if Clash(q, p, v) {
      var l :| l in q && l.v != v && l.Not() in p;
      assert l.Not() in p && l.Not().Not() in q;
    }
  }

  /** Looks for the variable of `l` in `ps`. */
  method FindVar(ps: Clause, l: Lit) returns (found: bool, clash: bool)
    requires DistinctVars(ps)
    ensures clash <==> l.Not() in ps
    ensures !clash ==> (found <==> l in ps)
  {
    var j := 0;
    while j < |ps|
      invariant 0 <= j <= |ps| && forall k :: 0 <= k < j ==> ps[k].v != l.v
    {
      if ps[j].v == l.v {
        if ps[j] == l.Not() { return false, true; }
        assert ps[j] == l;
        forall k | 0 <= k < |ps| ensures ps[k] != l.Not() { assert ps[k].v == ps[j].v ==> k == j; }
        return true, false;
      }
      j := j + 1;
    }
    return false, false;
  }

  lemma SameVar(l: Lit, q: Lit)
    ensures l.v == q.v <==> l == q || l.Not() == q
  {
  }

  lemma DistinctPush(out: Clause, l: Lit)
    requires DistinctVars(out) && forall q :: q in out ==> q.v != l.v
    ensures DistinctVars(out + [l])
  {
  }

  lemma PrefixApart(c: Clause, i: nat)
    requires DistinctVars(c) && i < |c|
    ensures forall l :: l in c[..i] ==> l.v != c[i].v
  {
  }

  /** The literals of `qs` over other variables than `v` that are not in `ps`; not `ok` on a clash. */
  method OnlyIn(qs: Clause, ps: Clause, v: nat) returns (ok: bool, out: Clause)
    requires DistinctVars(qs) && DistinctVars(ps)
    ensures ok <==> !Clash(qs, ps, v)
    ensures ok ==> DistinctVars(out) && forall l :: l in out <==> l in qs && l.v != v && l !in ps
  {
    hide DistinctVars;
    out := [];
    var i := 0;
    DistinctNone();
    while i < |qs|
      invariant 0 <= i <= |qs| && DistinctVars(out)
      invariant forall l :: l in qs[..i] && l.v != v ==> l.Not() !in ps
      invariant forall l :: l in out <==> l in qs[..i] && l.v != v && l !in ps
    {
      assert qs[..i + 1] == qs[..i] + [qs[i]];
      if qs[i].v != v {
        var found, clash := FindVar(ps, qs[i]);
        if clash {
          assert qs[i] in qs;
          return false, [];
        }
        if !found {
          PrefixApart(qs, i);
          DistinctPush(out, qs[i]);
          out := out + [qs[i]];
        }
      }
      i := i + 1;
    }
    assert qs[..i] == qs;
    ok := true;
  }

  lemma DistinctNone()
    ensures DistinctVars([])
  {
  }

  /** Adds the literals of `ps` over other variables than `v`. */
  method Append(out0: Clause, ps: Clause, v: nat) returns (out: Clause)
    requires DistinctVars(ps) && DistinctVars(out0) && forall l, q :: l in out0 && q in ps && q.v != v ==> l.v != q.v
    ensures DistinctVars(out) && forall l :: l in out <==> l in out0 || (l in ps && l.v != v)
  {
    hide DistinctVars;
    out := out0;
    var i := 0;
    while i < |ps|
      invariant 0 <= i <= |ps| && DistinctVars(out)
      invariant forall l :: l in out <==> l in out0 || (l in ps[..i] && l.v != v)
    {
      assert ps[..i + 1] == ps[..i] + [ps[i]];
      if ps[i].v != v {
        assert ps[i] in ps;
        PrefixApart(ps, i);
        DistinctPush(out, ps[i]);
        out := out + [ps[i]];
      }
      i := i + 1;
    }
    assert ps[..i] == ps;
  }

  /** The resolvent of two clauses over `v`; not `ok` when it would be a tautology. */
  method Merge(ps0: Clause, qs0: Clause, v: nat) returns (ok: bool, out: Clause)
    requires DistinctVars(ps0) && DistinctVars(qs0)
    ensures ok <==> !Clash(ps0, qs0, v)
    ensures ok ==> DistinctVars(out) && Lits(out) == Without(ps0, v) + Without(qs0, v)
  {
    hide DistinctVars;
    var ps, qs := if |ps0| < |qs0| then qs0 else ps0, if |ps0| < |qs0| then ps0 else qs0;
    ClashSym(ps0, qs0, v);
    ok, out := OnlyIn(qs, ps, v);
    if ok {
      forall l, q | l in out && q in ps && q.v != v ensures l.v != q.v {
        SameVar(l, q);
        assert l.Not() !in ps;
      }
      out := Append(out, ps, v);
      assert Lits(out) == Without(ps0, v) + Without(qs0, v);
    }
  }

  lemma LitsCount(c: Clause)
    requires DistinctVars(c)
    ensures |Lits(c)| == |c|
  {
    if c != [] {
      var d, l := c[..|c| - 1], c[|c| - 1];
      LitsCount(d);
      assert Lits(c) == Lits(d) + {l};
    } else {
      assert Lits(c) == {};
    }
  }

  lemma WithoutCount(c: Clause, v: nat)
    requires DistinctVars(c) && exists l :: l in c && l.v == v
    ensures |Without(c, v)| == |c| - 1
  {
    LitsCount(c);
    var l :| l in c && l.v == v;
    forall q | q in c && q.v == v ensures q == l {
      var i :| 0 <= i < |c| && c[i] == q;
      var j :| 0 <= j < |c| && c[j] == l;
    }
    assert Lits(c) == Without(c, v) + {l};
  }

  /** A literal of `qs` was counted already exactly when it is in `ps`. */
  lemma SeenNext(ps: Clause, qs: Clause, v: nat, i: nat, seen: set<Lit>)
    requires DistinctVars(qs) && i < |qs| && qs[i].v != v
    requires forall l :: l in seen <==> l in Without(ps, v) || (l in qs[..i] && l.v != v)
    ensures qs[i] in ps ==> seen + {qs[i]} == seen
    ensures qs[i] !in ps ==> |seen + {qs[i]}| == |seen| + 1
  {
    PrefixApart(qs, i);
  }

  /** The size of the resolvent, without building it. */
  method MergeSize(ps0: Clause, qs0: Clause, v: nat) returns (ok: bool, size: nat)
    requires DistinctVars(ps0) && DistinctVars(qs0)
    requires (exists l :: l in ps0 && l.v == v) && (exists l :: l in qs0 && l.v == v)
    ensures ok <==> !Clash(ps0, qs0, v)
    ensures ok ==> size == |Without(ps0, v) + Without(qs0, v)|
  {
    hide DistinctVars;
    var ps, qs := if |ps0| < |qs0| then qs0 else ps0, if |ps0| < |qs0| then ps0 else qs0;
    ClashSym(ps0, qs0, v);
    WithoutCount(ps, v);
    size := |ps| - 1;
    var i := 0;
    ghost var seen: set<Lit> := Without(ps, v);
    while i < |qs|
      invariant 0 <= i <= |qs| && size == |seen|
      invariant forall l :: l in qs[..i] && l.v != v ==> l.Not() !in ps
      invariant forall l :: l in seen <==> l in Without(ps, v) || (l in qs[..i] && l.v != v)
    {
      assert qs[..i + 1] == qs[..i] + [qs[i]];
      if qs[i].v != v {
        var found, clash := FindVar(ps, qs[i]);
        if clash {
          assert qs[i] in qs;
          return false, 0;
        }
        SeenNext(ps, qs, v, i, seen);
        if !found { size := size + 1; }
        seen := seen + {qs[i]};
      }
      i := i + 1;
    }
    assert qs[..i] == qs;
    ok := true;
    assert seen == Without(ps0, v) + Without(qs0, v);
  }

  // ----- replaying stored clauses -----

  function ValueFor(l: Lit): T.LBool {
    if l.neg then T.LFalse else T.LTrue
  }

  /** Some literal after the first is not false. */
  ghost predicate RestOpen(model: seq<T.LBool>, e: Clause) {
    exists k :: 1 <= k < |e| && Val(model, e[k]) != T.LFalse
  }

  /** Makes the first literal true when all others are false. */
  ghost function ReplayOne(e: Clause, model: seq<T.LBool>): seq<T.LBool> {
    if |e| == 0 || e[0].v >= |model| || RestOpen(model, e) then model else model[e[0].v := ValueFor(e[0])]
  }

  /** Replays the entries from the last to the first. */
  ghost function Replay(entries: seq<Clause>, model: seq<T.LBool>): seq<T.LBool> {
    if entries == [] then model else Replay(entries[..|entries| - 1], ReplayOne(entries[|entries| - 1], model))
  }

  lemma {:induction false} ReplayPlus(a: seq<Clause>, b: seq<Clause>, model: seq<T.LBool>)
    ensures Replay(a + b, model) == Replay(a, Replay(b, model))
    decreases b
  {
    if b == [] {
      assert a + b == a;
    } else {
      var n := |b| - 1;
      assert (a + b)[..|a + b| - 1] == a + b[..n];
      ReplayPlus(a, b[..n], ReplayOne(b[n], model));
    }
  }

  lemma {:induction false} ReplayLength(entries: seq<Clause>, model: seq<T.LBool>)
    ensures |Replay(entries, model)| == |model|
  {
    if entries != [] { ReplayLength(entries[..|entries| - 1], ReplayOne(entries[|entries| - 1], model)); }
  }

  /** All entries start with `x` and mention its variable nowhere else. */
  ghost predicate EntriesFor(entries: seq<Clause>, x: Lit) {
    forall e :: e in entries ==> EntryFor(e, x)
  }

  ghost predicate EntryFor(e: Clause, x: Lit) {
    |e| > 0 && e[0] == x && forall k :: 1 <= k < |e| ==> e[k].v != x.v
  }

  ghost predicate SameBut(model: seq<T.LBool>, model': seq<T.LBool>, v: nat) {
    |model'| == |model| && forall u :: 0 <= u < |model| && u != v ==> model'[u] == model[u]
  }

  lemma RestSame(model: seq<T.LBool>, model': seq<T.LBool>, e: Clause, x: Lit)
    requires EntryFor(e, x) && SameBut(model, model', x.v)
    ensures RestOpen(model, e) <==> RestOpen(model', e)
  {
    forall k | 1 <= k < |e| ensures Val(model, e[k]) == Val(model', e[k]) { }
  }

  /** Replaying the stored clauses of `x` sets it exactly when one of them has nothing else left. */
  lemma {:induction false} ReplayStored(entries: seq<Clause>, x: Lit, model: seq<T.LBool>)
    requires EntriesFor(entries, x) && x.v < |model|
    ensures SameBut(model, Replay(entries, model), x.v)
    ensures Replay(entries, model)[x.v] == if (exists e :: e in entries && !RestOpen(model, e)) then ValueFor(x) else model[x.v]
  {
    hide RestOpen;
    if entries != [] {
      var n := |entries| - 1;
      var e, model' := entries[n], ReplayOne(entries[n], model);
      assert EntryFor(e, x) && SameBut(model, model', x.v);
      ReplayStored(entries[..n], x, model');
      forall d | d in entries ensures RestOpen(model, d) <==> RestOpen(model', d) { RestSame(model, model', d, x); }
      assert entries == entries[..n] + [e];
    }
  }

  // ----- one elimination -----

  /** `c` is the resolvent over `v` of a clause with `v` and one with its negation. */
  ghost predicate IsResolvent(before: set<Clause>, v: nat, c: Clause) {
    exists p, q :: p in before && q in before && Resolves(p, q, v, c)
  }

  ghost predicate Resolves(p: Clause, q: Clause, v: nat, c: Clause) {
    Lit(v, false) in p && Lit(v, true) in q && !Clash(p, q, v) && Lits(c) == Without(p, v) + Without(q, v)
  }

  ghost predicate Mentions(c: Clause, v: nat) {
    exists l :: l in c && l.v == v
  }

  /** The clauses with `v` have gone: every other clause and every resolvent contains one that is left, and what is left
      follows from the clauses before. */
  ghost predicate Eliminated(before: set<Clause>, v: nat, after: set<Clause>) {
    && (forall c :: c in before && !Mentions(c, v) ==> Inside(after, Lits(c)))
    && (forall p, q :: p in before && q in before && Lit(v, false) in p && Lit(v, true) in q && !Clash(p, q, v) ==> Inside(after, Without(p, v) + Without(q, v)))
    && forall m: Assignment :: AllSat(m, before) ==> AllSat(m, after)
  }

  /** It stays so when the rest is made smaller. */
  lemma EliminatedStronger(before: set<Clause>, v: nat, after: set<Clause>, more: set<Clause>)
    requires Eliminated(before, v, after) && Stronger(after, more)
    ensures Eliminated(before, v, more)
  {
    hide AllSat, Clash, Mentions;
    forall ls | Inside(after, ls) ensures Inside(more, ls) { InsideStronger(after, more, ls); }
  }

  lemma InsideStronger(f: set<Clause>, g: set<Clause>, ls: set<Lit>)
    requires Inside(f, ls) && Stronger(f, g)
    ensures Inside(g, ls)
  {
    hide AllSat;
    var d :| d in f && Lits(d) <= ls;
    assert Inside(g, Lits(d));
  }

  /** Resolvents follow from their parents, so no model is lost. */
  lemma ResolventHolds(m: Assignment, p: Clause, q: Clause, v: nat, c: Clause)
    requires Sat(m, Lits(p)) && Sat(m, Lits(q)) && Resolves(p, q, v, c) && DistinctVars(p) && DistinctVars(q)
    ensures Sat(m, Lits(c))
  {
    var l :| l in Lits(p) && True(m, l);
    var k :| k in Lits(q) && True(m, k);
    OnlyOne(p, Lit(v, false));
    OnlyOne(q, Lit(v, true));
    assert l.v == v ==> k.v != v;
    assert (l.v != v && l in Lits(c)) || (k.v != v && k in Lits(c));
  }

  lemma OnlyOne(c: Clause, x: Lit)
    requires DistinctVars(c) && x in c
    ensures forall l :: l in c && l.v == x.v ==> l == x
  {
    var i :| 0 <= i < |c| && c[i] == x;
    forall l | l in c && l.v == x.v ensures l == x { var j :| 0 <= j < |c| && c[j] == l; }
  }

  /** All resolvents of the clauses with `v` are among `rs`, and nothing else is. */
  ghost predicate AllResolvents(before: set<Clause>, v: nat, rs: set<Clause>) {
    && (forall c :: c in rs ==> IsResolvent(before, v, c))
    && (forall p, q :: p in before && q in before && Lit(v, false) in p && Lit(v, true) in q && !Clash(p, q, v) ==> HasResolvent(rs, p, q, v))
  }

  ghost predicate HasResolvent(rs: set<Clause>, p: Clause, q: Clause, v: nat) {
    exists c :: c in rs && Lits(c) == Without(p, v) + Without(q, v)
  }

  /** Resolvents lose no model. */
  lemma EliminationKeeps(before: set<Clause>, v: nat, rs: set<Clause>, m: Assignment)
    requires AllSat(m, before) && (forall c :: c in before ==> DistinctVars(c)) && forall c :: c in rs ==> IsResolvent(before, v, c)
    ensures AllSat(m, before + rs)
  {
    hide DistinctVars, Sat, Mentions, Clash;
    forall c | c in rs ensures Sat(m, Lits(c)) {
      var p, q :| p in before && q in before && Resolves(p, q, v, c);
      ResolventHolds(m, p, q, v, c);
    }
  }

  /** The order of the code: the resolvents are added, with what follows from them, and then the clauses with `v` removed. */
  lemma ResolveAndRemove(before: set<Clause>, v: nat, rs: set<Clause>, added: set<Clause>, after: set<Clause>)
    requires (forall c :: c in before ==> DistinctVars(c)) && AllResolvents(before, v, rs) && Stronger(before + rs, added)
    requires after <= added && forall c :: c in added && !Mentions(c, v) ==> c in after
    ensures Eliminated(before, v, after)
  {
    hide DistinctVars, Sat, Clash, Inside, IsResolvent;
    forall m: Assignment | AllSat(m, before) ensures AllSat(m, after) {
      EliminationKeeps(before, v, rs, m);
      assert AllSat(m, added);
    }
    forall c | c in before && !Mentions(c, v) ensures Inside(after, Lits(c)) {
      assert c in before + rs;
      InsideLeft(before + rs, v, added, after, c, Lits(c));
    }
    forall p, q | p in before && q in before && Lit(v, false) in p && Lit(v, true) in q && !Clash(p, q, v) ensures Inside(after, Without(p, v) + Without(q, v)) {
      assert HasResolvent(rs, p, q, v);
      var c :| c in rs && Lits(c) == Without(p, v) + Without(q, v);
      assert c in before + rs;
      InsideLeft(before + rs, v, added, after, c, Without(p, v) + Without(q, v));
    }
  }

  /** What is inside a clause without `v` is not removed. */
  lemma InsideLeft(f: set<Clause>, v: nat, added: set<Clause>, after: set<Clause>, c: Clause, ls: set<Lit>)
    requires Stronger(f, added) && c in f && Lits(c) == ls && forall l :: l in ls ==> l.v != v
    requires forall d :: d in added && !Mentions(d, v) ==> d in after
    ensures Inside(after, ls)
  {
    hide AllSat;
    assert Inside(added, Lits(c));
    var d :| d in added && Lits(d) <= Lits(c);
    forall l | l in d ensures l.v != v { assert l in Lits(d); }
  }

  /** What is stored when `v` is eliminated: the clauses with `x`, each with `x` first, and its negation alone. */
  ghost predicate StoredFor(before: set<Clause>, x: Lit, entries: seq<Clause>) {
    && |entries| > 0 && entries[|entries| - 1] == [x.Not()]
    && EntriesFor(entries[..|entries| - 1], x)
    && (forall e :: e in entries[..|entries| - 1] ==> exists c :: c in before && Lits(e) == Lits(c))
    && (forall c :: c in before && x in c ==> exists e :: e in entries[..|entries| - 1] && Lits(e) == Lits(c))
  }

  /** Every other variable of the clauses has a value. */
  ghost predicate DefinedBut(model: seq<T.LBool>, cs: set<Clause>, v: nat) {
    forall c, l :: c in cs && l in c && l.v != v ==> Val(model, l) != T.LUndef
  }

  lemma CaseOther(model: seq<T.LBool>, model': seq<T.LBool>, c: Clause, v: nat)
    requires Satisfied(model, c) && !Mentions(c, v) && SameBut(model, model', v)
    ensures Satisfied(model', c)
  {
    var l :| l in c && Val(model, l) == T.LTrue;
    assert Val(model', l) == T.LTrue;
  }

  lemma CaseStored(model: seq<T.LBool>, model': seq<T.LBool>, e: Clause, c: Clause, x: Lit)
    requires EntryFor(e, x) && Lits(e) == Lits(c) && RestOpen(model, e) && SameBut(model, model', x.v)
    requires forall l :: l in c && l.v != x.v ==> Val(model, l) != T.LUndef
    ensures Satisfied(model', c)
  {
    var k :| 1 <= k < |e| && Val(model, e[k]) != T.LFalse;
    assert e[k] in Lits(e) && e[k] in c;
    assert Val(model', e[k]) == T.LTrue;
  }

  /** The clauses that resolve with `c0` hold once the rest of `c0` is false. */
  lemma CaseResolved(before: set<Clause>, after: set<Clause>, model: seq<T.LBool>, model': seq<T.LBool>, e: Clause, c0: Clause, c: Clause, x: Lit)
    requires Eliminated(before, x.v, after) && c0 in before && c in before && x in c0 && x.Not() in c
    requires EntryFor(e, x) && Lits(e) == Lits(c0) && !RestOpen(model, e) && SameBut(model, model', x.v) && SatisfiesAll(model, after)
    ensures Satisfied(model', c)
  {
    forall l | l in c0 && l.v != x.v ensures Val(model, l) == T.LFalse {
      assert l in Lits(e);
      var k :| 0 <= k < |e| && e[k] == l;
    }
    ClashSym(c0, c, x.v);
    if Clash(c0, c, x.v) {
      var l :| l in c0 && l.v != x.v && l.Not() in c;
      assert Val(model', l.Not()) == T.LTrue;
    } else {
      var p, q := if x.neg then c else c0, if x.neg then c0 else c;
      assert Inside(after, Without(p, x.v) + Without(q, x.v));
      var r :| r in after && Lits(r) <= Without(p, x.v) + Without(q, x.v);
      assert Satisfied(model, r);
      var l :| l in r && Val(model, l) == T.LTrue;
      assert l in Lits(r) && l in Without(c, x.v);
      assert Val(model', l) == T.LTrue;
    }
  }

  /** Replaying the stored clauses turns a model of the reduced clauses into one of the clauses before. */
  lemma ReplayExtends(before: set<Clause>, after: set<Clause>, x: Lit, entries: seq<Clause>, model: seq<T.LBool>)
    requires Eliminated(before, x.v, after) && StoredFor(before, x, entries) && SatisfiesAll(model, after)
    requires x.v < |model| && DefinedBut(model, before, x.v)
    ensures SatisfiesAll(Replay(entries, model), before)
    ensures SameBut(model, Replay(entries, model), x.v) && Replay(entries, model)[x.v] != T.LUndef
  {
    hide Clash, Eliminated, RestOpen, StoredFor, SatisfiesAll, Replay, EntriesFor, Satisfied;
    var model' := Replay(entries, model);
    var hit := Outcome(before, x, entries, model);
    forall c | c in before ensures Satisfied(model', c) {
      ReplayedClause(before, after, x, entries, model, model', hit, c);
    }
    AllSatisfied(model', before);
  }

  lemma AllSatisfied(model: seq<T.LBool>, cs: set<Clause>)
    requires forall c :: c in cs ==> Satisfied(model, c)
    ensures SatisfiesAll(model, cs)
  {
  }

  /** After the replay, `x` is true exactly when some stored clause has nothing else left. */
  lemma Outcome(before: set<Clause>, x: Lit, entries: seq<Clause>, model: seq<T.LBool>) returns (hit: Option<Clause>)
    requires StoredFor(before, x, entries) && x.v < |model|
    ensures var model' := Replay(entries, model);
      SameBut(model, model', x.v) && model'[x.v] == ValueFor(if hit.Some? then x else x.Not())
    ensures hit.Some? ==> hit.value in entries[..|entries| - 1] && !RestOpen(model, hit.value)
    ensures hit.None? ==> forall e :: e in entries[..|entries| - 1] ==> RestOpen(model, e)
  {
    hide RestOpen;
    var n := |entries| - 1;
    var model1 := model[x.v := ValueFor(x.Not())];
    LastEntry(entries, x, model);
    ReplayStored(entries[..n], x, model1);
    forall e | e in entries[..n] ensures RestOpen(model, e) <==> RestOpen(model1, e) { RestSame(model, model1, e, x); }
    if e :| e in entries[..n] && !RestOpen(model, e) {
      hit := Some(e);
    } else {
      hit := None;
    }
  }

  lemma ReplayedClause(before: set<Clause>, after: set<Clause>, x: Lit, entries: seq<Clause>, model: seq<T.LBool>, model': seq<T.LBool>,
                       hit: Option<Clause>, c: Clause)
    requires Eliminated(before, x.v, after) && StoredFor(before, x, entries) && SatisfiesAll(model, after) && c in before
    requires DefinedBut(model, before, x.v) && x.v < |model| && SameBut(model, model', x.v)
    requires model'[x.v] == ValueFor(if hit.Some? then x else x.Not())
    requires hit.Some? ==> hit.value in entries[..|entries| - 1] && !RestOpen(model, hit.value)
    requires hit.None? ==> forall e :: e in entries[..|entries| - 1] ==> RestOpen(model, e)
    ensures Satisfied(model', c)
  {
    hide RestOpen, Clash;
    if x in c {
      if hit.Some? {
        assert Val(model', x) == T.LTrue;
      } else {
        var e :| e in entries[..|entries| - 1] && Lits(e) == Lits(c);
        CaseStored(model, model', e, c, x);
      }
    } else if x.Not() in c {
      if hit.None? {
        assert Val(model', x.Not()) == T.LTrue;
      } else {
        var c0 :| c0 in before && Lits(hit.value) == Lits(c0);
        assert x in Lits(hit.value);
        CaseResolved(before, after, model, model', hit.value, c0, c, x);
      }
    } else {
      forall l | l in c ensures l.v != x.v { SameVar(l, x); }
      KeptSatisfied(before, after, x.v, model, c);
      CaseOther(model, model', c, x.v);
    }
  }

  lemma KeptSatisfied(before: set<Clause>, after: set<Clause>, v: nat, model: seq<T.LBool>, c: Clause)
    requires Eliminated(before, v, after) && SatisfiesAll(model, after) && c in before && !Mentions(c, v)
    ensures Satisfied(model, c)
  {
    InsideSatisfied(model, after, Lits(c));
  }

  lemma InsideSatisfied(model: seq<T.LBool>, cs: set<Clause>, ls: set<Lit>)
    requires SatisfiesAll(model, cs) && Inside(cs, ls)
    ensures exists l :: l in ls && Val(model, l) == T.LTrue
  {
    var d :| d in cs && Lits(d) <= ls;
    assert Satisfied(model, d);
    var l :| l in d && Val(model, l) == T.LTrue;
    assert l in Lits(d);
  }

  lemma LastEntry(entries: seq<Clause>, x: Lit, model: seq<T.LBool>)
    requires |entries| > 0 && entries[|entries| - 1] == [x.Not()] && x.v < |model|
    ensures Replay(entries, model) == Replay(entries[..|entries| - 1], model[x.v := ValueFor(x.Not())])
  {
    assert !RestOpen(model, [x.Not()]);
  }

  // ----- the whole history -----

  /** One elimination: the literal whose clauses were stored, the clauses before, and what was stored. */
  datatype Step = Step(x: Lit, before: set<Clause>, entries: seq<Clause>)

  ghost predicate Gone(history: seq<Step>, v: nat) {
    exists i :: 0 <= i < |history| && history[i].x.v == v
  }

  /** The clauses have distinct variables below `n`; only clauses of one literal may have an eliminated one. */
  ghost predicate Current(cs: set<Clause>, history: seq<Step>, n: nat) {
    forall c :: c in cs ==> DistinctVars(c) && forall l :: l in c ==> l.v < n && (|c| == 1 || !Gone(history, l.v))
  }

  /** The eliminations lead from the original clauses to the present ones. */
  ghost predicate Chain(history: seq<Step>, original: set<Clause>, formula: set<Clause>, n: nat) {
    if history == [] then Stronger(original, formula)
    else
      var front, s := history[..|history| - 1], history[|history| - 1];
      && Chain(front, original, s.before, n) && Current(s.before, front, n) && s.x.v < n
      && Eliminated(s.before, s.x.v, formula) && StoredFor(s.before, s.x, s.entries)
  }

  lemma ChainStronger(history: seq<Step>, original: set<Clause>, formula: set<Clause>, more: set<Clause>, n: nat)
    requires Chain(history, original, formula, n) && Stronger(formula, more)
    ensures Chain(history, original, more, n)
  {
    hide Stronger, Eliminated, StoredFor, Current;
    if history == [] {
      StrongerTrans(original, formula, more);
    } else {
      var s := history[|history| - 1];
      EliminatedStronger(s.before, s.x.v, formula, more);
    }
  }

  ghost function AllEntries(history: seq<Step>): seq<Clause> {
    if history == [] then [] else AllEntries(history[..|history| - 1]) + history[|history| - 1].entries
  }

  ghost predicate AllDefined(model: seq<T.LBool>, history: seq<Step>) {
    forall v :: 0 <= v < |model| && !Gone(history, v) ==> model[v] != T.LUndef
  }

  lemma GoneMore(front: seq<Step>, s: Step, v: nat)
    ensures Gone(front + [s], v) <==> Gone(front, v) || v == s.x.v
  {
    var h := front + [s];
    if Gone(front, v) {
      var i :| 0 <= i < |front| && front[i].x.v == v;
      assert h[i] == front[i];
    }
    assert h[|front|] == s;
  }

  /** An eliminated variable occurs in clauses of one literal only, and these hold in every model of what is left. */
  lemma DefinedBefore(before: set<Clause>, front: seq<Step>, s: Step, after: set<Clause>, model: seq<T.LBool>)
    requires Current(before, front, |model|) && AllDefined(model, front + [s])
    requires Eliminated(before, s.x.v, after) && SatisfiesAll(model, after)
    ensures DefinedBut(model, before, s.x.v)
  {
    hide DistinctVars, Gone, Eliminated, SatisfiesAll;
    forall c, l | c in before && l in c && l.v != s.x.v ensures Val(model, l) != T.LUndef {
      GoneMore(front, s, l.v);
      if Gone(front, l.v) {
        assert c == [l];
        KeptSatisfied(before, after, s.x.v, model, c);
      }
    }
  }

  lemma DefinedAfter(front: seq<Step>, s: Step, model: seq<T.LBool>, model': seq<T.LBool>)
    requires AllDefined(model, front + [s]) && SameBut(model, model', s.x.v) && s.x.v < |model| && model'[s.x.v] != T.LUndef
    ensures AllDefined(model', front)
  {
    forall v | 0 <= v < |model'| && !Gone(front, v) ensures model'[v] != T.LUndef { GoneMore(front, s, v); }
  }

  /** The backward replay turns any model of the reduced clauses into a model of the original ones. */
  lemma {:induction false} ReplayHistory(history: seq<Step>, original: set<Clause>, formula: set<Clause>, model: seq<T.LBool>)
    requires Chain(history, original, formula, |model|) && SatisfiesAll(model, formula) && AllDefined(model, history)
    ensures SatisfiesAll(Replay(AllEntries(history), model), original)
    ensures |Replay(AllEntries(history), model)| == |model|
    ensures forall v :: 0 <= v < |model| ==> Replay(AllEntries(history), model)[v] != T.LUndef
    decreases |history|
  {
    hide Eliminated, StoredFor, SatisfiesAll, DefinedBut, Current, Replay;
    if history == [] {
      ReplayNone(model);
      StrongerSatisfied(original, formula, model);
    } else {
      var front, s := history[..|history| - 1], history[|history| - 1];
      assert history == front + [s];
      DefinedBefore(s.before, front, s, formula, model);
      ReplayExtends(s.before, formula, s.x, s.entries, model);
      var model' := Replay(s.entries, model);
      DefinedAfter(front, s, model, model');
      ReplayHistory(front, original, s.before, model');
      ReplayPlus(AllEntries(front), s.entries, model);
    }
  }

  lemma StrongerSatisfied(f: set<Clause>, g: set<Clause>, model: seq<T.LBool>)
    requires Stronger(f, g) && SatisfiesAll(model, g)
    ensures SatisfiesAll(model, f)
  {
    hide AllSat;
    forall c | c in f ensures Satisfied(model, c) {
      InsideSatisfied(model, g, Lits(c));
      var l :| l in Lits(c) && Val(model, l) == T.LTrue;
    }
  }

  lemma ReplayNone(model: seq<T.LBool>)
    ensures Replay([], model) == model
  {
  }

  /** No elimination loses a model, so the reduced clauses are satisfiable exactly when the original ones are. */
  lemma {:induction false} HistoryKeeps(history: seq<Step>, original: set<Clause>, formula: set<Clause>, n: nat, m: Assignment)
    requires Chain(history, original, formula, n) && AllSat(m, original)
    ensures AllSat(m, formula)
    decreases |history|
  {
    hide StoredFor, AllSat, Current;
    if history != [] {
      var front, s := history[..|history| - 1], history[|history| - 1];
      HistoryKeeps(front, original, s.before, n, m);
    }
  }

  lemma SameSat(model: seq<T.LBool>, cs: set<Clause>)
    requires SatisfiesAll(model, cs)
    ensures HasModel(cs)
  {
    var m: Assignment := (v: nat) => v < |model| && model[v] == T.LTrue;
    forall c | c in cs ensures Sat(m, Lits(c)) {
      assert Satisfied(model, c);
      var l :| l in c && Val(model, l) == T.LTrue;
      assert l in Lits(c) && True(m, l);
    }
    assert AllSat(m, cs);
  }

  /** The values of an assignment as a vector. */
  ghost function AsVector(m: Assignment, n: nat): seq<T.LBool> {
    seq(n, v requires 0 <= v < n => if m(v) then T.LTrue else T.LFalse)
  }

  lemma VectorSat(m: Assignment, cs: set<Clause>, history: seq<Step>, n: nat)
    requires AllSat(m, cs) && forall c, l :: c in cs && l in c ==> l.v < n
    ensures SatisfiesAll(AsVector(m, n), cs) && AllDefined(AsVector(m, n), history)
  {
    forall c | c in cs ensures Satisfied(AsVector(m, n), c) {
      assert Sat(m, Lits(c));
      var l :| l in Lits(c) && True(m, l);
      assert Val(AsVector(m, n), l) == T.LTrue;
    }
  }

  /** Eliminations preserve satisfiability both ways. */
  lemma Equisatisfiable(history: seq<Step>, original: set<Clause>, formula: set<Clause>, n: nat)
    requires Chain(history, original, formula, n) && Current(formula, history, n)
    ensures HasModel(original) <==> HasModel(formula)
  {
    hide Chain, DistinctVars, Gone;
    if HasModel(original) {
      var m: Assignment :| AllSat(m, original);
      HistoryKeeps(history, original, formula, n, m);
    }
    if HasModel(formula) {
      var m: Assignment :| AllSat(m, formula);
      VectorSat(m, formula, history, n);
      ReplayHistory(history, original, formula, AsVector(m, n));
      SameSat(Replay(AllEntries(history), AsVector(m, n)), original);
    }
  }

  // ----- a clause added later -----

  /** The history with one more clause at every stage. */
  ghost function AddTo(history: seq<Step>, d: Clause): (h: seq<Step>)
    ensures |h| == |history|
  {
    if history == [] then []
    else
      var s := history[|history| - 1];
      AddTo(history[..|history| - 1], d) + [Step(s.x, s.before + {d}, s.entries)]
  }

  lemma EliminatedMore(before: set<Clause>, v: nat, after: set<Clause>, d: Clause)
    requires Eliminated(before, v, after) && forall l :: l in d ==> l.v != v
    ensures Eliminated(before + {d}, v, after + {d})
  {
    hide Sat, Clash;
    forall ls | Inside(after, ls) ensures Inside(after + {d}, ls) {
      var c :| c in after && Lits(c) <= ls;
      assert c in after + {d};
    }
    forall m: Assignment | AllSat(m, before + {d}) ensures AllSat(m, after + {d}) {
      assert AllSat(m, before);
    }
    forall c | c in before + {d} && !Mentions(c, v) ensures Inside(after + {d}, Lits(c)) {
      if c == d { assert d in after + {d}; }
    }
  }

  /** A clause without eliminated variables may be added at any time, as if it had been there from the start. */
  lemma {:induction false} ChainAdd(history: seq<Step>, original: set<Clause>, formula: set<Clause>, n: nat, ps: Clause, d: Clause)
    requires Chain(history, original, formula, n) && DistinctVars(d) && Lits(d) == Lits(ps) && forall l :: l in d ==> l.v < n && !Gone(history, l.v)
    ensures Chain(AddTo(history, d), original + {ps}, formula + {d}, n) && AllEntries(AddTo(history, d)) == AllEntries(history)
    ensures forall v :: Gone(AddTo(history, d), v) <==> Gone(history, v)
    decreases |history|
  {
    hide Eliminated, DistinctVars, Gone;
    if history == [] {
      StrongerBoth(original, formula, ps, d);
      assert AddTo(history, d) == history;
    } else {
      var front, s := history[..|history| - 1], history[|history| - 1];
      assert history == front + [s];
      GoneFront(front, s, d);
      ChainAdd(front, original, s.before, n, ps, d);
      ChainAddStep(front, s, original, formula, n, ps, d);
    }
  }

  lemma GoneFront(front: seq<Step>, s: Step, d: Clause)
    requires forall l :: l in d ==> !Gone(front + [s], l.v)
    ensures forall l :: l in d ==> !Gone(front, l.v) && l.v != s.x.v
  {
    hide Gone;
    forall l | l in d ensures !Gone(front, l.v) && l.v != s.x.v { GoneMore(front, s, l.v); }
  }

  lemma ChainAddStep(front: seq<Step>, s: Step, original: set<Clause>, formula: set<Clause>, n: nat, ps: Clause, d: Clause)
    requires Chain(front + [s], original, formula, n) && DistinctVars(d) && forall l :: l in d ==> l.v < n && !Gone(front, l.v) && l.v != s.x.v
    requires Chain(AddTo(front, d), original + {ps}, s.before + {d}, n) && AllEntries(AddTo(front, d)) == AllEntries(front)
    requires forall v :: Gone(AddTo(front, d), v) <==> Gone(front, v)
    ensures Chain(AddTo(front + [s], d), original + {ps}, formula + {d}, n) && AllEntries(AddTo(front + [s], d)) == AllEntries(front + [s])
    ensures forall v :: Gone(AddTo(front + [s], d), v) <==> Gone(front + [s], v)
  {
    hide Eliminated, DistinctVars, Gone, StoredFor, Current, AddTo, AllEntries;
    var t := Step(s.x, s.before + {d}, s.entries);
    assert (front + [s])[..|front|] == front && (front + [s])[|front|] == s;
    AddToStep(front, s, d);
    assert (AddTo(front, d) + [t])[..|AddTo(front, d)|] == AddTo(front, d);
    CurrentMore(s.before, front, AddTo(front, d), n, d);
    EliminatedMore(s.before, s.x.v, formula, d);
    StoredMore(s.before, s.x, s.entries, d);
  }

  lemma AddToStep(front: seq<Step>, s: Step, d: Clause)
    requires AllEntries(AddTo(front, d)) == AllEntries(front) && forall v :: Gone(AddTo(front, d), v) <==> Gone(front, v)
    ensures AddTo(front + [s], d) == AddTo(front, d) + [Step(s.x, s.before + {d}, s.entries)]
    ensures AllEntries(AddTo(front + [s], d)) == AllEntries(front + [s])
    ensures forall v :: Gone(AddTo(front + [s], d), v) <==> Gone(front + [s], v)
  {
    hide Gone;
    var t, h := Step(s.x, s.before + {d}, s.entries), AddTo(front, d);
    assert (front + [s])[..|front|] == front && (h + [t])[..|h|] == h;
    forall v: nat ensures Gone(h + [t], v) <==> Gone(front + [s], v) {
      GoneMore(front, s, v);
      GoneMore(h, t, v);
    }
  }

  lemma CurrentMore(before: set<Clause>, front: seq<Step>, more: seq<Step>, n: nat, d: Clause)
    requires Current(before, front, n) && DistinctVars(d) && (forall l :: l in d ==> l.v < n && !Gone(front, l.v)) && forall v :: Gone(more, v) <==> Gone(front, v)
    ensures Current(before + {d}, more, n)
  {
    hide Gone, DistinctVars;
  }

  lemma StoredMore(before: set<Clause>, x: Lit, entries: seq<Clause>, d: Clause)
    requires StoredFor(before, x, entries) && forall l :: l in d ==> l.v != x.v
    ensures StoredFor(before + {d}, x, entries)
  {
    hide EntriesFor, Lits;
    forall e | e in entries[..|entries| - 1] ensures exists c :: c in before + {d} && Lits(e) == Lits(c) {
      var c :| c in before && Lits(e) == Lits(c);
      assert c in before + {d};
    }
  }

  lemma StrongerBoth(f: set<Clause>, g: set<Clause>, c: Clause, d: Clause)
    requires Stronger(f, g) && Lits(c) == Lits(d)
    ensures Stronger(f + {c}, g + {d})
  {
    hide Sat;
    forall m: Assignment | AllSat(m, f + {c}) ensures AllSat(m, g + {d}) {
      assert AllSat(m, f);
    }
    forall x | x in f + {c} ensures Inside(g + {d}, Lits(x)) {
      if x in f {
        assert Inside(g, Lits(x));
        var e :| e in g && Lits(e) <= Lits(x);
        assert e in g + {d};
      } else {
        assert d in g + {d};
      }
    }
  }

  // ----- the flat buffer -----

  function ToInt(l: Lit): nat {
    2 * l.v + if l.neg then 1 else 0
  }

  function ToLit(k: nat): Lit {
    Lit(k / 2, k % 2 == 1)
  }

  lemma LitInt(l: Lit)
    ensures ToLit(ToInt(l)) == l
  {
  }

  function Ints(e: Clause): seq<nat> {
    seq(|e|, i requires 0 <= i < |e| => ToInt(e[i]))
  }

  /** Each entry is its literals followed by their number. */
  function Flat(entries: seq<Clause>): seq<nat> {
    if entries == [] then [] else Flat(entries[..|entries| - 1]) + Ints(entries[|entries| - 1]) + [|entries[|entries| - 1]|]
  }

  lemma FlatOne(entries: seq<Clause>, e: Clause)
    ensures Flat(entries + [e]) == Flat(entries) + Ints(e) + [|e|]
  {
    assert (entries + [e])[..|entries|] == entries;
  }

  /** Where the last entry lies. */
  lemma FlatParts(entries: seq<Clause>, k: nat)
    requires 0 < k <= |entries|
    ensures var e, start := entries[k - 1], |Flat(entries[..k - 1])|;
      && |Flat(entries[..k])| == start + |e| + 1 && Flat(entries[..k])[start + |e|] == |e|
      && forall i :: 0 <= i < |e| ==> Flat(entries[..k])[start + i] == ToInt(e[i])
  {
    assert entries[..k] == entries[..k - 1] + [entries[k - 1]];
    FlatOne(entries[..k - 1], entries[k - 1]);
  }

  lemma {:induction false} FlatPrefix(entries: seq<Clause>, k: nat)
    requires k <= |entries|
    ensures |Flat(entries[..k])| <= |Flat(entries)| && Flat(entries)[..|Flat(entries[..k])|] == Flat(entries[..k])
    decreases |entries| - k
  {
    if k < |entries| {
      FlatPrefix(entries, k + 1);
      assert entries[..k + 1] == entries[..k] + [entries[k]];
      FlatOne(entries[..k], entries[k]);
      assert Flat(entries)[..|Flat(entries[..k])|] == Flat(entries[..k + 1])[..|Flat(entries[..k])|];
    } else {
      assert entries[..k] == entries;
    }
  }

  // ----- how much an elimination would add -----

  /** How many of the first `j` clauses resolve with `p`. */
  ghost function RowCount(p: Clause, neg: seq<Clause>, v: nat, j: nat): nat
    requires j <= |neg|
  {
    if j == 0 then 0 else RowCount(p, neg, v, j - 1) + if Clash(p, neg[j - 1], v) then 0 else 1
  }

  /** How many resolvents the first `i` clauses have. */
  ghost function Count(pos: seq<Clause>, neg: seq<Clause>, v: nat, i: nat): nat
    requires i <= |pos|
  {
    if i == 0 then 0 else Count(pos, neg, v, i - 1) + RowCount(pos[i - 1], neg, v, |neg|)
  }

  lemma RowGrows(p: Clause, neg: seq<Clause>, v: nat, j: nat, k: nat)
    requires j <= k <= |neg|
    ensures RowCount(p, neg, v, j) <= RowCount(p, neg, v, k)
  {
  }

  lemma CountGrows(pos: seq<Clause>, neg: seq<Clause>, v: nat, i: nat, k: nat)
    requires i <= k <= |pos|
    ensures Count(pos, neg, v, i) <= Count(pos, neg, v, k)
  {
  }

  ghost predicate LargePair(p: Clause, q: Clause, v: nat, lim: int) {
    lim != -1 && !Clash(p, q, v) && |Without(p, v) + Without(q, v)| > lim
  }

  lemma LargeIs(p: Clause, q: Clause, v: nat, lim: int)
    requires lim != -1 && !Clash(p, q, v) && |Without(p, v) + Without(q, v)| > lim
    ensures LargePair(p, q, v, lim)
  {
  }

  lemma NotLarge(p: Clause, q: Clause, v: nat, lim: int)
    requires Clash(p, q, v) || lim == -1 || |Without(p, v) + Without(q, v)| <= lim
    ensures !LargePair(p, q, v, lim)
  {
  }

  lemma MentionsIs(v: nat)
    ensures forall c: Clause :: Mentions(c, v) ==> exists l :: l in c && l.v == v
  {
  }

  /** There are more resolvents than clauses to remove plus `grow`, or one exceeds the size limit. */
  ghost predicate TooBig(pos: seq<Clause>, neg: seq<Clause>, v: nat, grow: nat, lim: int) {
    || Count(pos, neg, v, |pos|) > |pos| + |neg| + grow
    || exists i, j :: 0 <= i < |pos| && 0 <= j < |neg| && LargePair(pos[i], neg[j], v, lim)
  }

  ghost predicate EntriesIn(entries: seq<Clause>, n: nat) {
    forall k :: 0 <= k < |entries| ==> |entries[k]| > 0 && entries[k][0].v < n
  }

  // ----- storing the clauses of a literal -----

  lemma Swapped(c: Clause, p: nat, e: Clause, x: Lit)
    requires DistinctVars(c) && p < |c| && c[p] == x && e == c[p := c[0]][0 := c[p]]
    ensures EntryFor(e, x) && Lits(e) == Lits(c)
  {
    forall l ensures l in e <==> l in c {
      if l in c {
        var i :| 0 <= i < |c| && c[i] == l;
        assert e[if i == 0 then p else if i == p then 0 else i] == l;
      }
    }
    forall k | 1 <= k < |e| ensures e[k].v != x.v { assert e[k] == if k == p then c[0] else c[k]; }
  }

  lemma FlatMore(buffer0: seq<nat>, entries: seq<Clause>, e: Clause)
    ensures forall stored :: buffer0 == Flat(stored) ==> Flat(stored + (entries + [e])) == Flat(stored + entries) + Ints(e) + [|e|]
  {
    forall stored | buffer0 == Flat(stored) ensures Flat(stored + (entries + [e])) == Flat(stored + entries) + Ints(e) + [|e|] {
      FlatOne(stored + entries, e);
      assert stored + (entries + [e]) == (stored + entries) + [e];
    }
  }

  lemma EntriesPlus(a: seq<Clause>, b: seq<Clause>, n: nat, m: nat)
    requires EntriesIn(a, n) && EntriesIn(b, m) && m <= n
    ensures EntriesIn(a + b, n)
  {
  }

  lemma StoredIs(before: set<Clause>, x: Lit, cs: seq<Clause>, entries: seq<Clause>)
    requires forall c :: c in cs <==> c in before && x in c
    requires |entries| == |cs| && forall k :: 0 <= k < |cs| ==> EntryFor(entries[k], x) && Lits(entries[k]) == Lits(cs[k])
    ensures StoredFor(before, x, entries + [[x.Not()]]) && EntriesIn(entries + [[x.Not()]], x.v + 1)
  {
    StoredParts(before, x, cs, entries);
    var all := entries + [[x.Not()]];
    assert all[..|all| - 1] == entries && all[|all| - 1] == [x.Not()];
    forall k | 0 <= k < |all| ensures |all[k]| > 0 && all[k][0].v < x.v + 1 { assert k < |entries| ==> EntryFor(entries[k], x); }
  }

  lemma StoredParts(before: set<Clause>, x: Lit, cs: seq<Clause>, entries: seq<Clause>)
    requires forall c :: c in cs <==> c in before && x in c
    requires |entries| == |cs| && forall k :: 0 <= k < |cs| ==> EntryFor(entries[k], x) && Lits(entries[k]) == Lits(cs[k])
    ensures EntriesFor(entries, x)
    ensures forall e :: e in entries ==> exists c :: c in before && Lits(e) == Lits(c)
    ensures forall c :: c in before && x in c ==> exists e :: e in entries && Lits(e) == Lits(c)
  {
    hide EntryFor, Lits;
    forall e | e in entries ensures EntryFor(e, x) && exists c :: c in before && Lits(e) == Lits(c) {
      var k :| 0 <= k < |entries| && entries[k] == e;
      assert cs[k] in cs;
    }
    forall c | c in before && x in c ensures exists e :: e in entries && Lits(e) == Lits(c) {
      var k :| 0 <= k < |cs| && cs[k] == c;
      assert entries[k] in entries;
    }
  }

  lemma EitherLit(c: Clause, v: nat)
    ensures Mentions(c, v) <==> Lit(v, false) in c || Lit(v, true) in c
  {
    if Mentions(c, v) {
      var l :| l in c && l.v == v;
      assert l == Lit(v, false) || l == Lit(v, true);
    }
  }

  /** An elimination is recorded. */
  lemma StoreStep(history: seq<Step>, original: set<Clause>, before: set<Clause>, after: set<Clause>, n: nat, s: Step)
    requires Chain(history, original, before, n) && Current(before, history, n) && s.before == before && s.x.v < n
    requires Eliminated(before, s.x.v, after) && StoredFor(before, s.x, s.entries)
    ensures Chain(history + [s], original, after, n)
    ensures AllEntries(history + [s]) == AllEntries(history) + s.entries
    ensures forall v :: Gone(history + [s], v) <==> Gone(history, v) || v == s.x.v
  {
    hide Eliminated, StoredFor, Current, Gone;
    assert (history + [s])[..|history|] == history;
    forall v: nat ensures Gone(history + [s], v) <==> Gone(history, v) || v == s.x.v { GoneMore(history, s, v); }
  }

  // ----- cross products -----

  ghost predicate FromPair(pos: seq<Clause>, neg: seq<Clause>, v: nat, c: Clause) {
    exists p, q :: p in pos && q in neg && Resolves(p, q, v, c)
  }

  /** `rs` has the resolvents of the pairs before `(i, j)`. */
  ghost predicate ProductOf(pos: seq<Clause>, neg: seq<Clause>, v: nat, rs: set<Clause>, i: nat, j: nat) {
    && (forall c :: c in rs ==> FromPair(pos, neg, v, c))
    && (forall k, l :: 0 <= k < |pos| && 0 <= l < |neg| && (k < i || (k == i && l < j)) ==> Clash(pos[k], neg[l], v) || HasResolvent(rs, pos[k], neg[l], v))
  }

  lemma ProductNext(pos: seq<Clause>, neg: seq<Clause>, v: nat, rs: set<Clause>, i: nat, j: nat, merged: bool, r: Clause)
    requires ProductOf(pos, neg, v, rs, i, j) && i < |pos| && j < |neg| && (merged <==> !Clash(pos[i], neg[j], v))
    requires merged ==> FromPair(pos, neg, v, r) && Lits(r) == Without(pos[i], v) + Without(neg[j], v)
    ensures ProductOf(pos, neg, v, if merged then rs + {r} else rs, i, j + 1)
  {
    hide Clash, Without, FromPair;
    var rs' := if merged then rs + {r} else rs;
    forall k, l | 0 <= k < |pos| && 0 <= l < |neg| && (k < i || (k == i && l < j + 1))
      ensures Clash(pos[k], neg[l], v) || HasResolvent(rs', pos[k], neg[l], v)
    {
      if k == i && l == j {
        if merged { assert r in rs'; }
      } else if !Clash(pos[k], neg[l], v) {
        assert HasResolvent(rs, pos[k], neg[l], v);
        var c :| c in rs && Lits(c) == Without(pos[k], v) + Without(neg[l], v);
        assert c in rs';
      }
    }
  }

  lemma ProductRow(pos: seq<Clause>, neg: seq<Clause>, v: nat, rs: set<Clause>, i: nat)
    requires ProductOf(pos, neg, v, rs, i, |neg|)
    ensures ProductOf(pos, neg, v, rs, i + 1, 0)
  {
    hide Clash, HasResolvent, FromPair;
  }

  lemma ProductAll(before: set<Clause>, v: nat, pos: seq<Clause>, neg: seq<Clause>, rs: set<Clause>)
    requires (forall c :: c in pos <==> c in before && Lit(v, false) in c) && (forall c :: c in neg <==> c in before && Lit(v, true) in c)
    requires ProductOf(pos, neg, v, rs, |pos|, 0)
    ensures AllResolvents(before, v, rs)
  {
    hide Clash, Without, Resolves, HasResolvent;
    forall c | c in rs ensures IsResolvent(before, v, c) {
      assert FromPair(pos, neg, v, c);
      var p, q :| p in pos && q in neg && Resolves(p, q, v, c);
      assert p in before && q in before;
    }
    forall p, q | p in before && q in before && Lit(v, false) in p && Lit(v, true) in q && !Clash(p, q, v) ensures HasResolvent(rs, p, q, v) {
      var k :| 0 <= k < |pos| && pos[k] == p;
      var l :| 0 <= l < |neg| && neg[l] == q;
      assert HasResolvent(rs, pos[k], neg[l], v);
    }
  }
}
