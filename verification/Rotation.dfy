/** Recursive model rotation: from one almost-model to further ones, reporting the soft clauses they hang on. */
module ModelRotation {
  import opened Cnf
  import Trail

  predicate TrueLit(model: seq<bool>, l: Lit) {
    l.v < |model| && model[l.v] != l.neg
  }

  predicate TrueClause(model: seq<bool>, c: Clause) {
    exists l :: l in c && TrueLit(model, l)
  }

  /** The model with variable `x` flipped. */
  function Flipped(model: seq<bool>, x: nat): (m: seq<bool>)
    requires x < |model|
    ensures |m| == |model|
  {
    model[x := !model[x]]
  }

  /** A flip falsifies only clauses with the literal that was true, and satisfies those with the one that was false. */
  lemma FlipEffect(model: seq<bool>, l: Lit, c: Clause)
    requires l.v < |model| && !TrueLit(model, l)
    ensures l in c ==> TrueClause(Flipped(model, l.v), c)
    ensures TrueClause(model, c) && l.Not() !in c ==> TrueClause(Flipped(model, l.v), c)
  {
    assert TrueLit(Flipped(model, l.v), l);
    if TrueClause(model, c) && l.Not() !in c {
      var q :| q in c && TrueLit(model, q);
      assert q.v == l.v ==> q == l.Not();
      assert TrueLit(Flipped(model, l.v), q);
    }
  }

  /** The clause a rotation step starts from: a soft or a hard one. */
  datatype Target = Soft(index: nat) | Hard(index: nat)

  /** Every literal lists the clauses it occurs in, each once. */
  ghost predicate Occurs(clauses: seq<Clause>, occurs: map<Lit, seq<nat>>, n: nat) {
    forall l: Lit :: l.v < n ==> l in occurs && Lists(clauses, occurs[l], l)
  }

  ghost predicate Lists(clauses: seq<Clause>, occ: seq<nat>, l: Lit) {
    && (forall i: nat :: i in occ <==> i < |clauses| && l in clauses[i])
    && forall j, k :: 0 <= j < k < |occ| ==> occ[j] != occ[k]
  }

  /** Every variable of the formula has a place in the model. */
  predicate InRange(clauses: seq<Clause>, n: nat) {
    forall i :: 0 <= i < |clauses| ==> forall l :: l in clauses[i] ==> l.v < n
  }

  /** The model satisfies all clauses of the list with an index in `among`, but for `except`. */
  ghost predicate AllBut(model: seq<bool>, clauses: seq<Clause>, among: set<nat>, except: set<nat>) {
    forall i: nat :: i < |clauses| && i in among ==> (TrueClause(model, clauses[i]) <==> i !in except)
  }

  /** The model falsifies the target and no other hard or active soft clause. */
  ghost predicate Hangs(model: seq<bool>, hard: seq<Clause>, soft: seq<Clause>, active: set<nat>, t: Target) {
    && AllBut(model, soft, active, if t.Soft? then {t.index} else {})
    && AllBut(model, hard, Trail.UpTo(|hard|), if t.Hard? then {t.index} else {})
    && (if t.Soft? then t.index < |soft| && t.index in active else t.index < |hard|)
  }

  /** Some assignment satisfies every hard clause and every active soft clause except this one. */
  ghost predicate Critical(n: nat, hard: seq<Clause>, soft: seq<Clause>, active: set<nat>, i: nat) {
    exists m: seq<bool> :: |m| == n && Hangs(m, hard, soft, active, Soft(i))
  }

  /** What a rotation does not change: the clauses, the active soft ones, and the candidates for a report. */
  datatype Problem = Problem(hard: seq<Clause>, soft: seq<Clause>, active: set<nat>, cands: set<nat>)

  /** Where a rotation has been: an assignment, the clause it hangs on, and the variables being flipped. */
  datatype Place = Place(m: seq<bool>, t: Target, open: set<nat>)

  /** The numbers visited, and since the start: the soft clauses reported in order, the hard clauses visited, and the places. */
  datatype Trace = Trace(visited: set<nat>, crits: seq<nat>, hidden: set<nat>, places: set<Place>)

  ghost predicate HangsIn(p: Problem, m: seq<bool>, t: Target) {
    Hangs(m, p.hard, p.soft, p.active, t)
  }

  function ClauseOf(p: Problem, t: Target): Clause {
    if t.Soft? then (if t.index < |p.soft| then p.soft[t.index] else [])
    else if t.index < |p.hard| then p.hard[t.index] else []
  }

  /** The clause to go on with: the one the model hangs on, unless it is a soft clause with a visited number. */
  ghost function Next(p: Problem, m: seq<bool>, visited: set<nat>): Option<Target> {
    if t :| HangsIn(p, m, t) && !(t.Soft? && t.index in visited) then Some(t) else None
  }

  ghost function Free(m: seq<bool>, open: set<nat>): set<nat> {
    Trail.UpTo(|m|) - open
  }

  /** A rotation from `t`, with the variables of `open` being flipped. */
  ghost function Rotation(p: Problem, m: seq<bool>, visited: set<nat>, open: set<nat>, t: Target): Trace
    decreases Free(m, open), 1, 0
  {
    if t.Hard? && t.index in visited then Trace(visited, [], {}, {})
    else Begun(p, Place(m, t, open), Turns(p, m, visited + {t.index}, open, ClauseOf(p, t)))
  }

  /** What follows the visit of a place, together with it. */
  ghost function Begun(p: Problem, q: Place, r: Trace): Trace {
    var report := if q.t.Soft? && q.t.index in p.cands then [q.t.index] else [];
    Trace(r.visited, report + r.crits, (if q.t.Hard? then {q.t.index} else {}) + r.hidden, {q} + r.places)
  }

  /** The literals of the falsified clause in turn. */
  ghost function Turns(p: Problem, m: seq<bool>, visited: set<nat>, open: set<nat>, c: Clause): Trace
    decreases Free(m, open), 0, |c|
  {
    if c == [] then Trace(visited, [], {}, {})
    else
      var r, l := Turns(p, m, visited, open, c[..|c| - 1]), c[|c| - 1];
      if l.v >= |m| || l.v in open then r
      else
        match Next(p, Flipped(m, l.v), r.visited)
        case None => r
        case Some(t) =>
          assert l.v in Free(m, open) && l.v !in Free(Flipped(m, l.v), open + {l.v});
          Joined(r, Rotation(p, Flipped(m, l.v), r.visited, open + {l.v}, t))
  }

  /** What one literal of the falsified clause adds. */
  ghost function Turn(p: Problem, m: seq<bool>, visited: set<nat>, open: set<nat>, x: nat): Trace
    requires x < |m|
  {
    match Next(p, Flipped(m, x), visited)
    case None => Trace(visited, [], {}, {})
    case Some(t) => Rotation(p, Flipped(m, x), visited, open + {x}, t)
  }

  /** One more literal. */
  lemma TurnsNext(p: Problem, m: seq<bool>, visited: set<nat>, open: set<nat>, c: Clause, i: nat)
    requires i < |c| && c[i].v < |m|
    ensures var r, s := Turns(p, m, visited, open, c[..i]), Turns(p, m, visited, open, c[..i + 1]);
      if c[i].v in open then s == r
      else
        var q := Turn(p, m, r.visited, open, c[i].v);
        s.visited == q.visited && s.crits == r.crits + q.crits
  {
    hide Hangs, Rotation;
    assert c[..i + 1][..i] == c[..i];
  }

  function Joined(r: Trace, s: Trace): Trace {
    Trace(s.visited, r.crits + s.crits, r.hidden + s.hidden, r.places + s.places)
  }

  /** The reports are different candidates, each isolated by some assignment of `n` variables; a number is new for
      a soft clause or for a hard one, never for both; and a new candidate number that is not hidden is reported. */
  ghost predicate Fair(p: Problem, n: nat, visited: set<nat>, r: Trace) {
    && visited <= r.visited
    && (forall k :: 0 <= k < |r.crits| ==> r.crits[k] in p.cands && r.crits[k] in r.visited - visited && r.crits[k] !in r.hidden)
    && (forall k :: 0 <= k < |r.crits| ==> Critical(n, p.hard, p.soft, p.active, r.crits[k]))
    && (forall j, k :: 0 <= j < k < |r.crits| ==> r.crits[j] != r.crits[k])
    && (forall h :: h in r.hidden ==> h in r.visited - visited && Reachable(p, n, h))
    && forall i :: i in r.visited - visited && i in p.cands && i !in r.hidden ==> i in r.crits
  }

  /** Some assignment falsifies this hard clause and no other hard or active soft one. */
  ghost predicate Reachable(p: Problem, n: nat, h: nat) {
    exists m: seq<bool> :: |m| == n && HangsIn(p, m, Hard(h))
  }

  lemma FairNone(p: Problem, n: nat, visited: set<nat>)
    ensures Fair(p, n, visited, Trace(visited, [], {}, {}))
  {
  }

  lemma FairJoined(p: Problem, n: nat, visited: set<nat>, r: Trace, s: Trace)
    requires Fair(p, n, visited, r) && Fair(p, n, r.visited, s)
    ensures Fair(p, n, visited, Joined(r, s))
  {
    hide Critical, Reachable;
    var q := Joined(r, s);
    forall i | i in q.visited - visited && i in p.cands && i !in q.hidden ensures i in q.crits {
      if i in r.visited { assert i in r.crits; } else { assert i in s.crits; }
    }
  }

  /** One clause visited first. */
  lemma FairFirst(p: Problem, m: seq<bool>, visited: set<nat>, open: set<nat>, t: Target, r: Trace)
    requires HangsIn(p, m, t) && t.index !in visited && Fair(p, |m|, visited + {t.index}, r)
    ensures Fair(p, |m|, visited, Begun(p, Place(m, t, open), r))
  {
    hide Hangs;
    var first := Trace(visited + {t.index}, if t.Soft? && t.index in p.cands then [t.index] else [], if t.Hard? then {t.index} else {}, {Place(m, t, open)});
    assert t.Soft? ==> Critical(|m|, p.hard, p.soft, p.active, t.index);
    assert t.Hard? ==> Reachable(p, |m|, t.index);
    assert Fair(p, |m|, visited, first);
    FairJoined(p, |m|, visited, first, r);
  }

  lemma {:induction false} RotationFair(p: Problem, m: seq<bool>, visited: set<nat>, open: set<nat>, t: Target)
    requires HangsIn(p, m, t) && (t.Soft? ==> t.index !in visited)
    ensures Fair(p, |m|, visited, Rotation(p, m, visited, open, t))
    decreases Free(m, open), 1, 0
  {
    hide Hangs, Fair;
    if t.Hard? && t.index in visited {
      FairNone(p, |m|, visited);
    } else {
      TurnsFair(p, m, visited + {t.index}, open, ClauseOf(p, t));
      FairFirst(p, m, visited, open, t, Turns(p, m, visited + {t.index}, open, ClauseOf(p, t)));
    }
  }

  lemma {:induction false} TurnsFair(p: Problem, m: seq<bool>, visited: set<nat>, open: set<nat>, c: Clause)
    ensures Fair(p, |m|, visited, Turns(p, m, visited, open, c))
    decreases Free(m, open), 0, |c|
  {
    hide Hangs, Fair;
    if c == [] {
      FairNone(p, |m|, visited);
    } else {
      var r, l := Turns(p, m, visited, open, c[..|c| - 1]), c[|c| - 1];
      TurnsFair(p, m, visited, open, c[..|c| - 1]);
      if l.v < |m| && l.v !in open {
        var next := Next(p, Flipped(m, l.v), r.visited);
        if next.Some? {
          assert l.v in Free(m, open) && l.v !in Free(Flipped(m, l.v), open + {l.v});
          RotationFair(p, Flipped(m, l.v), r.visited, open + {l.v}, next.value);
          FairJoined(p, |m|, visited, r, Rotation(p, Flipped(m, l.v), r.visited, open + {l.v}, next.value));
        }
      }
    }
  }

  /** Every clause that the model hangs on after one flip has been visited afterwards, or its number has. */
  lemma {:induction false} TurnsNear(p: Problem, m: seq<bool>, visited: set<nat>, open: set<nat>, c: Clause, l: Lit, t: Target)
    requires l in c && l.v < |m| && l.v !in open && HangsIn(p, Flipped(m, l.v), t)
    ensures t.index in Turns(p, m, visited, open, c).visited
    decreases |c|
  {
    hide Hangs, Fair;
    var front, last := c[..|c| - 1], c[|c| - 1];
    var r := Turns(p, m, visited, open, front);
    assert c == front + [last];
    if last.v < |m| && last.v !in open {
      var next := Next(p, Flipped(m, last.v), r.visited);
      if next.Some? {
        assert last.v in Free(m, open) && last.v !in Free(Flipped(m, last.v), open + {last.v});
        VisitedFirst(p, Flipped(m, last.v), r.visited, open + {last.v}, next.value);
        SeenOnly(Flipped(m, last.v), p.hard, p.soft, p.active, next.value);
      }
    }
    if l in front { TurnsNear(p, m, visited, open, front, l, t); }
  }

  lemma VisitedFirst(p: Problem, m: seq<bool>, visited: set<nat>, open: set<nat>, t: Target)
    requires HangsIn(p, m, t) && (t.Soft? ==> t.index !in visited)
    ensures t.index in Rotation(p, m, visited, open, t).visited && visited <= Rotation(p, m, visited, open, t).visited
  {
    hide Hangs;
    RotationFair(p, m, visited, open, t);
    if !(t.Hard? && t.index in visited) { TurnsFair(p, m, visited + {t.index}, open, ClauseOf(p, t)); }
  }

  /** A candidate one flip away from the start is reported exactly if no hard clause with its number has been visited. */
  lemma NearReported(p: Problem, m: seq<bool>, tc: nat, l: Lit, i: nat)
    requires HangsIn(p, m, Soft(tc)) && tc < |p.soft| && l in p.soft[tc] && l.v < |m| && i in p.cands && HangsIn(p, Flipped(m, l.v), Soft(i))
    ensures var r := Rotation(p, m, {}, {}, Soft(tc)); i in r.crits <==> i !in r.hidden
  {
    hide Hangs, Turns;
    var r := Rotation(p, m, {}, {}, Soft(tc));
    RotationFair(p, m, {}, {}, Soft(tc));
    TurnsNear(p, m, {tc}, {}, p.soft[tc], l, Soft(i));
    assert {} + {tc} == {tc};
    assert i in r.visited - {};
  }

  /** So it is reported when there is no such hard clause, or no assignment makes that one the only false clause. */
  lemma FreeNumberReported(p: Problem, m: seq<bool>, tc: nat, l: Lit, i: nat)
    requires HangsIn(p, m, Soft(tc)) && tc < |p.soft| && l in p.soft[tc] && l.v < |m| && i in p.cands && HangsIn(p, Flipped(m, l.v), Soft(i))
    requires i >= |p.hard| || !Reachable(p, |m|, i)
    ensures i in Rotation(p, m, {}, {}, Soft(tc)).crits
  {
    hide Hangs, Rotation;
    NearReported(p, m, tc, l, i);
    RotationFair(p, m, {}, {}, Soft(tc));
    if i in Rotation(p, m, {}, {}, Soft(tc)).hidden { ReachableIsHard(p, |m|, i); }
  }

  lemma ReachableIsHard(p: Problem, n: nat, h: nat)
    requires Reachable(p, n, h)
    ensures h < |p.hard|
  {
  }

  // ----- where a rotation gets -----

  /** One flip leads from place `a` to place `b`: a literal of the clause whose variable is not being flipped. */
  ghost predicate Step(p: Problem, a: Place, b: Place) {
    exists l :: l in ClauseOf(p, a.t) && Turned(p, a, l, b)
  }

  ghost predicate Turned(p: Problem, a: Place, l: Lit, b: Place) {
    l.v < |a.m| && l.v !in a.open && b.m == Flipped(a.m, l.v) && b.open == a.open + {l.v} && HangsIn(p, b.m, b.t)
  }

  ghost predicate Chain(p: Problem, path: seq<Place>) {
    |path| > 0 && forall k :: 0 < k < |path| ==> Step(p, path[k - 1], path[k])
  }

  ghost predicate ChainTo(p: Problem, a: Place, b: Place) {
    exists path :: Chain(p, path) && path[0] == a && path[|path| - 1] == b
  }

  /** The places lie on chains of flips from the start; each newly visited number is that of a place; and what one more
      flip leads to from a place has been visited too. */
  ghost predicate Explores(p: Problem, start: Place, visited: set<nat>, r: Trace) {
    && visited <= r.visited
    && (forall q :: q in r.places ==> q.t.index in r.visited && q.t.index !in visited && HangsIn(p, q.m, q.t) && ChainTo(p, start, q))
    && (forall x :: x in r.visited && x !in visited ==> exists q :: q in r.places && q.t.index == x)
    && forall q, b :: q in r.places && Step(p, q, b) ==> b.t.index in r.visited
  }

  lemma ChainSelf(p: Problem, a: Place)
    ensures ChainTo(p, a, a)
  {
    assert Chain(p, [a]);
  }

  lemma ChainFirst(p: Problem, a: Place, b: Place, c: Place)
    requires Step(p, a, b) && ChainTo(p, b, c)
    ensures ChainTo(p, a, c)
  {
    hide Step;
    var path :| Chain(p, path) && path[0] == b && path[|path| - 1] == c;
    var longer := [a] + path;
    forall k | 0 < k < |longer| ensures Step(p, longer[k - 1], longer[k]) {
      if k > 1 { assert Step(p, path[k - 2], path[k - 1]); }
    }
    assert Chain(p, longer) && longer[|longer| - 1] == c;
  }

  lemma ExploresNone(p: Problem, start: Place, visited: set<nat>)
    ensures Explores(p, start, visited, Trace(visited, [], {}, {}))
  {
  }

  lemma ExploresJoined(p: Problem, start: Place, visited: set<nat>, r: Trace, s: Trace)
    requires Explores(p, start, visited, r) && Explores(p, start, r.visited, s)
    ensures Explores(p, start, visited, Joined(r, s))
  {
    hide ChainTo, Step, HangsIn;
    var q := Joined(r, s);
    forall x | x in q.visited && x !in visited ensures exists a :: a in q.places && a.t.index == x {
      if x in r.visited {
        var a :| a in r.places && a.t.index == x;
        assert a in q.places;
      } else {
        var a :| a in s.places && a.t.index == x;
        assert a in q.places;
      }
    }
  }

  /** What is explored from the next place is explored from this one. */
  lemma ExploresNext(p: Problem, start: Place, next: Place, visited: set<nat>, r: Trace)
    requires Step(p, start, next) && Explores(p, next, visited, r)
    ensures Explores(p, start, visited, r)
  {
    hide ChainTo, Step, HangsIn;
    forall q | q in r.places ensures ChainTo(p, start, q) { ChainFirst(p, start, next, q); }
  }

  lemma ExploresFirst(p: Problem, start: Place, visited: set<nat>, r: Trace)
    requires HangsIn(p, start.m, start.t) && start.t.index !in visited && Explores(p, start, visited + {start.t.index}, r)
    requires forall b :: Step(p, start, b) ==> b.t.index in r.visited
    ensures Explores(p, start, visited, Begun(p, start, r))
  {
    hide ChainTo, Step, HangsIn;
    ChainSelf(p, start);
    var q := Begun(p, start, r);
    forall x | x in q.visited && x !in visited ensures exists a :: a in q.places && a.t.index == x {
      if x == start.t.index {
        assert start in q.places;
      } else {
        var a :| a in r.places && a.t.index == x;
        assert a in q.places;
      }
    }
  }

  lemma {:induction false} RotationExplores(p: Problem, m: seq<bool>, visited: set<nat>, open: set<nat>, t: Target)
    requires HangsIn(p, m, t) && (t.Soft? ==> t.index !in visited)
    ensures Explores(p, Place(m, t, open), visited, Rotation(p, m, visited, open, t))
    decreases Free(m, open), 1, 0
  {
    hide Hangs, Explores, Step;
    if t.Hard? && t.index in visited {
      ExploresNone(p, Place(m, t, open), visited);
    } else {
      var r := Turns(p, m, visited + {t.index}, open, ClauseOf(p, t));
      TurnsExplores(p, m, visited + {t.index}, open, t, ClauseOf(p, t));
      forall b | Step(p, Place(m, t, open), b) ensures b.t.index in r.visited { StepNear(p, m, visited + {t.index}, open, t, b); }
      ExploresFirst(p, Place(m, t, open), visited, r);
    }
  }

  lemma StepNear(p: Problem, m: seq<bool>, visited: set<nat>, open: set<nat>, t: Target, b: Place)
    requires Step(p, Place(m, t, open), b)
    ensures b.t.index in Turns(p, m, visited, open, ClauseOf(p, t)).visited
  {
    hide Hangs, Turns;
    var l :| l in ClauseOf(p, t) && Turned(p, Place(m, t, open), l, b);
    TurnsNear(p, m, visited, open, ClauseOf(p, t), l, b.t);
  }

  lemma {:induction false} TurnsExplores(p: Problem, m: seq<bool>, visited: set<nat>, open: set<nat>, t: Target, c: Clause)
    requires HangsIn(p, m, t) && forall l :: l in c ==> l in ClauseOf(p, t)
    ensures Explores(p, Place(m, t, open), visited, Turns(p, m, visited, open, c))
    decreases Free(m, open), 0, |c|
  {
    hide Hangs, Explores, ClauseOf;
    var start := Place(m, t, open);
    if c == [] {
      ExploresNone(p, start, visited);
    } else {
      var r, l := Turns(p, m, visited, open, c[..|c| - 1]), c[|c| - 1];
      TurnsExplores(p, m, visited, open, t, c[..|c| - 1]);
      if l.v < |m| && l.v !in open {
        var next := Next(p, Flipped(m, l.v), r.visited);
        if next.Some? {
          assert l.v in Free(m, open) && l.v !in Free(Flipped(m, l.v), open + {l.v});
          var q := Place(Flipped(m, l.v), next.value, open + {l.v});
          assert l in c && Turned(p, start, l, q);
          RotationExplores(p, q.m, r.visited, q.open, q.t);
          ExploresNext(p, start, q, r.visited, Rotation(p, q.m, r.visited, q.open, q.t));
          ExploresJoined(p, start, visited, r, Rotation(p, q.m, r.visited, q.open, q.t));
        }
      }
    }
  }

  /** All chains of flips from `start` to a clause with the number of `q` lead to `q` itself. */
  ghost predicate Sole(p: Problem, start: Place, q: Place) {
    forall b :: ChainTo(p, start, b) && b.t.index == q.t.index ==> b == q
  }

  /** A chain whose inner places are the only ones with their numbers is followed to its end. */
  lemma {:induction false} ChainFollowed(p: Problem, start: Place, r: Trace, path: seq<Place>, k: nat)
    requires Explores(p, start, {}, r) && start in r.places && Chain(p, path) && path[0] == start && k < |path|
    requires forall j :: 0 < j < k ==> Sole(p, start, path[j])
    ensures path[k].t.index in r.visited && (k > 0 && Sole(p, start, path[k]) ==> path[k] in r.places)
  {
    hide ChainTo, Step, HangsIn;
    if k > 0 {
      ChainFollowed(p, start, r, path, k - 1);
      assert Step(p, path[k - 1], path[k]);
      var q :| q in r.places && q.t.index == path[k].t.index;
    }
  }

  /** A candidate at the end of such a chain is reported exactly if no hard clause with its number has been visited; and it
      is when there is none, or no assignment makes that one the only false clause. */
  lemma ChainReported(p: Problem, m: seq<bool>, tc: nat, path: seq<Place>, i: nat)
    requires HangsIn(p, m, Soft(tc)) && i in p.cands
    requires Chain(p, path) && path[0] == Place(m, Soft(tc), {}) && path[|path| - 1].t == Soft(i)
    requires forall k :: 0 < k < |path| - 1 ==> Sole(p, path[0], path[k])
    ensures var r := Rotation(p, m, {}, {}, Soft(tc));
      (i in r.crits <==> i !in r.hidden) && (i >= |p.hard| || !Reachable(p, |m|, i) ==> i in r.crits)
  {
    hide Hangs, Rotation, Sole, Chain, Explores, Reachable;
    var r := Rotation(p, m, {}, {}, Soft(tc));
    RotationFair(p, m, {}, {}, Soft(tc));
    RotationExplores(p, m, {}, {}, Soft(tc));
    StartVisited(p, m, tc);
    ChainFollowed(p, path[0], r, path, |path| - 1) by { ChainEnds(p, path); }
    assert i in r.visited - {};
    if i in r.hidden { ReachableIsHard(p, |m|, i); }
  }

  lemma ChainEnds(p: Problem, path: seq<Place>)
    requires Chain(p, path)
    ensures |path| > 0
  {
  }

  lemma StartVisited(p: Problem, m: seq<bool>, tc: nat)
    ensures Place(m, Soft(tc), {}) in Rotation(p, m, {}, {}, Soft(tc)).places
  {
  }

  // ----- a hard clause that hides a soft one -----

  /** Over two variables: not x as hard clause, not y and x or y as soft ones. */
  ghost function Shared(): Problem {
    Problem([[Lit(0, true)]], [[Lit(1, true)], [Lit(0, false), Lit(1, false)]], {0, 1}, {0, 1})
  }

  lemma SharedHangs()
    ensures HangsIn(Shared(), [false, false], Soft(1)) && HangsIn(Shared(), [true, false], Hard(0)) && HangsIn(Shared(), [false, true], Soft(0))
  {
    var p := Shared();
    forall m: seq<bool> | |m| == 2
      ensures TrueClause(m, p.hard[0]) <==> !m[0]
      ensures TrueClause(m, p.soft[0]) <==> !m[1]
      ensures TrueClause(m, p.soft[1]) <==> m[0] || m[1]
    {
      assert Lit(0, true) in p.hard[0] && Lit(1, true) in p.soft[0] && p.soft[1][0] == Lit(0, false) && p.soft[1][1] == Lit(1, false);
      assert TrueLit(m, Lit(0, true)) <==> !m[0];
      assert TrueLit(m, Lit(1, true)) <==> !m[1];
      assert TrueLit(m, Lit(0, false)) <==> m[0];
      assert TrueLit(m, Lit(1, false)) <==> m[1];
    }
  }

  /** From x and y false, soft clause 0 is one flip away, but hard clause 0 is visited first, and it is not reported. */
  lemma SharedNumberHides()
    ensures HangsIn(Shared(), [false, false], Soft(1)) && HangsIn(Shared(), Flipped([false, false], 1), Soft(0))
    ensures Rotation(Shared(), [false, false], {}, {}, Soft(1)).crits == [1]
  {
    SharedHangs();
    assert Flipped([false, false], 1) == [false, true];
    SharedSecond();
    hide Hangs, Turns, Rotation;
    RotationBegins(Shared(), [false, false], {}, {}, 1);
    assert {} + {1} == {1};
  }

  /** The flip of x leads to the hard clause, and from there nowhere. */
  lemma SharedFirst()
    ensures Turns(Shared(), [false, false], {1}, {}, [Lit(0, false)]) == Trace({0, 1}, [], {0}, {Place([true, false], Hard(0), {0})})
  {
    var p, m := Shared(), [false, false];
    SharedHangs();
    SeenOnly([true, false], p.hard, p.soft, p.active, Hard(0));
    hide Hangs;
    assert Flipped(m, 0) == [true, false];
    assert [Lit(0, false)][..0] == [];
    assert Next(p, [true, false], {1}) == Some(Hard(0));
    assert ClauseOf(p, Hard(0)) == [Lit(0, true)] && [Lit(0, true)][..0] == [];
    assert Turns(p, [true, false], {1, 0}, {0}, [Lit(0, true)]) == Trace({1, 0}, [], {}, {});
    assert {1} + {0} == {1, 0} && {} + {0} == {0};
  }

  /** The flip of y leads to the soft clause with the number visited already. */
  lemma SharedSecond()
    ensures Turns(Shared(), [false, false], {1}, {}, Shared().soft[1]) == Trace({0, 1}, [], {0}, {Place([true, false], Hard(0), {0})})
  {
    var p, m, c := Shared(), [false, false], Shared().soft[1];
    SharedHangs();
    SeenOnly([false, true], p.hard, p.soft, p.active, Soft(0));
    hide Hangs;
    SharedFirst();
    assert Flipped(m, 1) == [false, true];
    assert c[..1] == [Lit(0, false)];
    assert Next(p, [false, true], {0, 1}) == None;
  }

  // ----- an earlier visit that hides a later one -----

  /** Over x, y and z: y or x, not y or x, not x or z, not z or y as soft clauses. */
  ghost function Crossed(): Problem {
    Problem([], [[Lit(1, false), Lit(0, false)], [Lit(1, true), Lit(0, false)], [Lit(0, true), Lit(2, false)], [Lit(2, true), Lit(1, false)]],
            {0, 1, 2, 3}, {0, 1, 2, 3})
  }

  lemma TwoTrue(m: seq<bool>, a: Lit, b: Lit)
    ensures TrueClause(m, [a, b]) <==> TrueLit(m, a) || TrueLit(m, b)
  {
    assert a in [a, b] && b in [a, b];
  }

  lemma CrossedTrue(m: seq<bool>)
    requires |m| == 3
    ensures var p := Crossed();
      && (TrueClause(m, p.soft[0]) <==> m[1] || m[0]) && (TrueClause(m, p.soft[1]) <==> !m[1] || m[0])
      && (TrueClause(m, p.soft[2]) <==> !m[0] || m[2]) && (TrueClause(m, p.soft[3]) <==> !m[2] || m[1])
  {
    TwoTrue(m, Lit(1, false), Lit(0, false));
    TwoTrue(m, Lit(1, true), Lit(0, false));
    TwoTrue(m, Lit(0, true), Lit(2, false));
    TwoTrue(m, Lit(2, true), Lit(1, false));
  }

  lemma CrossedHangs()
    ensures HangsIn(Crossed(), [false, false, false], Soft(0)) && HangsIn(Crossed(), [false, true, false], Soft(1))
    ensures HangsIn(Crossed(), [true, true, false], Soft(2)) && HangsIn(Crossed(), [true, false, false], Soft(2))
    ensures HangsIn(Crossed(), [true, false, true], Soft(3)) && forall t :: !HangsIn(Crossed(), [true, true, true], t)
  {
    hide TrueClause;
    CrossedTrue([false, false, false]);
    CrossedTrue([false, true, false]);
    CrossedTrue([true, true, false]);
    CrossedTrue([true, false, false]);
    CrossedTrue([true, false, true]);
    CrossedTrue([true, true, true]);
  }

  lemma TurnsNone(p: Problem, m: seq<bool>, visited: set<nat>, open: set<nat>)
    ensures Turns(p, m, visited, open, []) == Trace(visited, [], {}, {})
  {
  }

  /** A literal that leads nowhere. */
  lemma TurnsStay(p: Problem, m: seq<bool>, visited: set<nat>, open: set<nat>, front: Clause, l: Lit)
    requires l.v < |m| && (l.v in open || forall t :: HangsIn(p, Flipped(m, l.v), t) ==> t.Soft? && t.index in Turns(p, m, visited, open, front).visited)
    ensures Turns(p, m, visited, open, front + [l]) == Turns(p, m, visited, open, front)
  {
    hide Hangs;
    assert (front + [l])[..|front|] == front;
    if l.v !in open { NextNone(p, Flipped(m, l.v), Turns(p, m, visited, open, front).visited); }
  }

  /** A literal that leads to soft clause `i`. */
  lemma TurnsGo(p: Problem, m: seq<bool>, visited: set<nat>, open: set<nat>, front: Clause, l: Lit, i: nat)
    requires l.v < |m| && l.v !in open && HangsIn(p, Flipped(m, l.v), Soft(i)) && i !in Turns(p, m, visited, open, front).visited
    ensures var r := Turns(p, m, visited, open, front); var q := Place(Flipped(m, l.v), Soft(i), open + {l.v});
      Turns(p, m, visited, open, front + [l]) == Joined(r, Begun(p, q, Turns(p, q.m, r.visited + {i}, q.open, ClauseOf(p, q.t))))
  {
    hide Hangs;
    assert (front + [l])[..|front|] == front;
    NextIs(p, Flipped(m, l.v), Turns(p, m, visited, open, front).visited, Soft(i));
  }

  /** Flips of x and then z lead from all false to clause 3. But clause 2, in between, is visited first on the way over y and
      x, from where a flip of z leads nowhere; the second time it is skipped, and clause 3 is not reported. */
  lemma EarlierVisitHides()
    ensures var p, start, path := Crossed(), [false, false, false], CrossedPath();
      && Rotation(p, start, {}, {}, Soft(0)).crits == [0, 1, 2] && Rotation(p, start, {}, {}, Soft(0)).hidden == {}
      && HangsIn(p, start, Soft(0)) && Chain(p, path) && path[0] == Place(start, Soft(0), {}) && path[2].t == Soft(3) && 3 in p.cands
  {
    CrossedHangs();
    CrossedChain();
    hide Hangs, Turns, Rotation, Chain;
    CrossedStart();
    RotationBegins(Crossed(), [false, false, false], {}, {}, 0);
    assert {} + {0} == {0};
  }

  lemma RotationBegins(p: Problem, m: seq<bool>, visited: set<nat>, open: set<nat>, i: nat)
    ensures Rotation(p, m, visited, open, Soft(i)) == Begun(p, Place(m, Soft(i), open), Turns(p, m, visited + {i}, open, ClauseOf(p, Soft(i))))
  {
  }

  /** The second literal leads to clause 2 again. */
  lemma CrossedStart()
    ensures var r := Turns(Crossed(), [false, false, false], {0}, {}, Crossed().soft[0]);
      r.visited == {0, 1, 2} && r.crits == [1, 2] && r.hidden == {}
  {
    var p, m := Crossed(), [false, false, false];
    CrossedSecond();
    CrossedAgain();
    assert p.soft[0] == [Lit(1, false)] + [Lit(0, false)] && Flipped(m, 0) == [true, false, false];
    hide Hangs, Turns, Crossed;
    TurnsStay(p, m, {0}, {}, [Lit(1, false)], Lit(0, false));
  }

  lemma CrossedAgain()
    ensures forall t :: HangsIn(Crossed(), [true, false, false], t) ==> t == Soft(2)
  {
    var p := Crossed();
    CrossedHangs();
    SeenOnly([true, false, false], p.hard, p.soft, p.active, Soft(2));
  }

  ghost function CrossedPath(): seq<Place> {
    [Place([false, false, false], Soft(0), {}), Place([true, false, false], Soft(2), {0}), Place([true, false, true], Soft(3), {0, 2})]
  }

  lemma CrossedChain()
    ensures Chain(Crossed(), CrossedPath())
  {
    var p, path := Crossed(), CrossedPath();
    CrossedHangs();
    hide Hangs;
    assert {} + {0} == {0} && {0} + {2} == {0, 2};
    assert Lit(0, false) in p.soft[0] && Flipped(path[0].m, 0) == path[1].m && Turned(p, path[0], Lit(0, false), path[1]);
    assert Lit(2, false) in p.soft[2] && Flipped(path[1].m, 2) == path[2].m && Turned(p, path[1], Lit(2, false), path[2]);
    forall k | 0 < k < |path| ensures Step(p, path[k - 1], path[k]) { assert k == 1 || k == 2; }
  }

  /** The way over y and x. */
  lemma CrossedSecond()
    ensures var r := Turns(Crossed(), [false, false, false], {0}, {}, [Lit(1, false)]);
      r.visited == {0, 1, 2} && r.crits == [1, 2] && r.hidden == {}
  {
    var p, m := Crossed(), [false, false, false];
    CrossedHangs();
    CrossedThird();
    hide Hangs, Turns;
    TurnsNone(p, m, {0}, {});
    assert [] + [Lit(1, false)] == [Lit(1, false)] && Flipped(m, 1) == [false, true, false];
    TurnsGo(p, m, {0}, {}, [], Lit(1, false), 1);
    assert {} + {1} == {1} && {0} + {1} == {0, 1};
  }

  lemma CrossedThird()
    ensures var r := Turns(Crossed(), [false, true, false], {0, 1}, {1}, Crossed().soft[1]);
      r.visited == {0, 1, 2} && r.crits == [2] && r.hidden == {}
  {
    var p, m := Crossed(), [false, true, false];
    CrossedHangs();
    CrossedFourth();
    hide Hangs, Turns;
    TurnsNone(p, m, {0, 1}, {1});
    TurnsStay(p, m, {0, 1}, {1}, [], Lit(1, true));
    assert [] + [Lit(1, true)] == [Lit(1, true)] && p.soft[1] == [Lit(1, true)] + [Lit(0, false)] && Flipped(m, 0) == [true, true, false];
    TurnsGo(p, m, {0, 1}, {1}, [Lit(1, true)], Lit(0, false), 2);
    assert {1} + {0} == {1, 0} && {0, 1} + {2} == {0, 1, 2};
  }

  lemma CrossedFourth()
    ensures Turns(Crossed(), [true, true, false], {0, 1, 2}, {1, 0}, Crossed().soft[2]) == Trace({0, 1, 2}, [], {}, {})
  {
    var p, m := Crossed(), [true, true, false];
    CrossedHangs();
    hide Hangs, Turns;
    TurnsNone(p, m, {0, 1, 2}, {1, 0});
    TurnsStay(p, m, {0, 1, 2}, {1, 0}, [], Lit(0, true));
    assert [] + [Lit(0, true)] == [Lit(0, true)] && p.soft[2] == [Lit(0, true)] + [Lit(2, false)] && Flipped(m, 2) == [true, true, true];
    TurnsStay(p, m, {0, 1, 2}, {1, 0}, [Lit(0, true)], Lit(2, false));
  }

  class ModelRotator {
    const hard: seq<Clause>
    const soft: seq<Clause>
    const hOccurs: map<Lit, seq<nat>>
    const sOccurs: map<Lit, seq<nat>>
    /** The assignment being rotated. */
    var model: seq<bool>
    var visited: seq<nat>
    var visitedVar: seq<bool>
    var cand: seq<nat>
    var actived: seq<nat>
    var stampCand: nat
    var stampCore: nat
    var unsSft: nat
    var unsHrd: nat
    var singletonSft: bool
    var singletonHrd: bool
    var crits: seq<nat>

    constructor (hard: seq<Clause>, soft: seq<Clause>, hOccurs: map<Lit, seq<nat>>, sOccurs: map<Lit, seq<nat>>, model: seq<bool>)
      requires InRange(hard, |model|) && InRange(soft, |model|)
      requires Occurs(hard, hOccurs, |model|) && Occurs(soft, sOccurs, |model|)
      ensures Shaped() && this.hard == hard && this.soft == soft && this.model == model && crits == []
      ensures forall v :: 0 <= v < |model| ==> !visitedVar[v]
    {
      this.hard, this.soft, this.hOccurs, this.sOccurs, this.model := hard, soft, hOccurs, sOccurs, model;
      visited, visitedVar := seq(|hard| + |soft|, i => 0), seq(|model|, v => false);
      cand, actived, stampCand, stampCore := seq(|soft|, i => 0), seq(|soft|, i => 0), 0, 0;
      unsSft, unsHrd, singletonSft, singletonHrd, crits := 0, 0, false, false, [];
    }

    ghost predicate Shaped()
      reads this
    {
      && InRange(hard, |model|) && InRange(soft, |model|)
      && Occurs(hard, hOccurs, |model|) && Occurs(soft, sOccurs, |model|)
      && |visited| == |hard| + |soft| && |visitedVar| == |model| && |cand| == |actived| == |soft|
      && (forall i :: 0 <= i < |visited| ==> visited[i] <= stampCand)
      && (forall i :: 0 <= i < |cand| ==> cand[i] <= stampCand)
      && forall i :: 0 <= i < |actived| ==> actived[i] <= stampCore
    }

    ghost function Active(): set<nat>
      reads this
    {
      set i: nat | i < |actived| && actived[i] == stampCore
    }

    ghost predicate HangsOn(t: Target)
      reads this
    {
      Hangs(model, hard, soft, Active(), t)
    }

    /** What the fields announce to a call of `Process`. */
    ghost function Announced(): Target
      reads this
    {
      if singletonSft then Soft(unsSft) else Hard(unsHrd)
    }

    method Flip(x: nat)
      requires x < |model|
      modifies this`model
      ensures model == Flipped(old(model), x) && Now() == old(Now()) && Open() == old(Open()) && Visited() == old(Visited())
    {
      model := model[x := !model[x]];
    }

    /** Notes that variable `x` is being flipped, or is no more. */
    method MarkVar(x: nat, b: bool)
      requires x < |visitedVar|
      modifies this`visitedVar
      ensures visitedVar == old(visitedVar)[x := b] && Open() == (if b then old(Open()) + {x} else old(Open()) - {x})
      ensures Now() == old(Now()) && Visited() == old(Visited())
    {
      visitedVar := visitedVar[x := b];
    }

    predicate Satisfied(c: Clause)
      reads this
    {
      TrueClause(model, c)
    }

    /** Looks for active soft clauses that the flip of `x` has falsified. */
    method SatisfyClS(x: nat) returns (ok: bool)
      requires Shaped() && x < |model| && !singletonSft
      modifies this`unsSft, this`singletonSft
      ensures ok <==> forall i: nat :: i in Fallen(soft, x) && i in Active() ==> TrueClause(model, soft[i])
      ensures singletonSft ==> !ok && unsSft in Fallen(soft, x) && unsSft in Active() && !TrueClause(model, soft[unsSft])
      ensures singletonSft ==> forall i: nat :: i in Fallen(soft, x) && i in Active() && i != unsSft ==> TrueClause(model, soft[i])
      ensures !ok ==> exists i: nat :: FalseIn(model, soft, Active(), i)
      ensures !ok && !singletonSft ==> TwoFalse(model, soft, Active())
    {
      var p := Lit(x, model[x]);
      var occ := sOccurs[p];
      assert Lists(soft, occ, p);
      var cpt, i := 0, 0;
      while i < |occ|
        invariant 0 <= i <= |occ| && 0 <= cpt <= 1 && (singletonSft <==> cpt == 1)
        invariant cpt == 1 ==> unsSft in occ[..i] && unsSft in Active() && !TrueClause(model, soft[unsSft])
        invariant forall k: nat :: k in occ[..i] && k in Active() && !TrueClause(model, soft[k]) ==> cpt == 1 && k == unsSft
      {
        var o := occ[i];
        assert o in occ && o !in occ[..i] && occ[..i + 1] == occ[..i] + [o];
        i := i + 1;
        if actived[o] != stampCore { continue; }
        ghost var first := unsSft;
        if !Satisfied(soft[o]) {
          cpt := cpt + 1;
          unsSft := o;
          singletonSft := true;
        }
        if cpt > 1 {
          singletonSft := false;
          assert o in Fallen(soft, x) && first != o && FalseIn(model, soft, Active(), first) && FalseIn(model, soft, Active(), o);
          return false;
        }
      }
      assert occ[..i] == occ;
      ok := cpt == 0;
      assert !ok ==> FalseIn(model, soft, Active(), unsSft);
    }

    /** The clauses of the list with the literal of `x` that is false now. */
    ghost function Fallen(clauses: seq<Clause>, x: nat): set<nat>
      requires x < |model|
      reads this
    {
      set i: nat | i < |clauses| && Lit(x, model[x]) in clauses[i]
    }

    method SatisfyClH(x: nat) returns (ok: bool)
      requires Shaped() && x < |model| && !singletonHrd
      modifies this`unsHrd, this`singletonHrd
      ensures ok <==> forall i: nat :: i in Fallen(hard, x) ==> TrueClause(model, hard[i])
      ensures singletonHrd ==> !ok && unsHrd in Fallen(hard, x) && !TrueClause(model, hard[unsHrd])
      ensures singletonHrd ==> forall i: nat :: i in Fallen(hard, x) && i != unsHrd ==> TrueClause(model, hard[i])
      ensures !ok ==> exists i: nat :: FalseIn(model, hard, Trail.UpTo(|hard|), i)
      ensures !ok && !singletonHrd ==> TwoFalse(model, hard, Trail.UpTo(|hard|))
    {
      var p := Lit(x, model[x]);
      var occ := hOccurs[p];
      assert Lists(hard, occ, p);
      var cpt, i := 0, 0;
      while i < |occ|
        invariant 0 <= i <= |occ| && 0 <= cpt <= 1 && (singletonHrd <==> cpt == 1)
        invariant cpt == 1 ==> unsHrd in occ[..i] && unsHrd < |hard| && !TrueClause(model, hard[unsHrd])
        invariant forall k: nat :: k in occ[..i] && k < |hard| && !TrueClause(model, hard[k]) ==> cpt == 1 && k == unsHrd
      {
        var o := occ[i];
        assert o in occ && o !in occ[..i] && occ[..i + 1] == occ[..i] + [o];
        i := i + 1;
        ghost var first := unsHrd;
        if !Satisfied(hard[o]) {
          cpt := cpt + 1;
          unsHrd := o;
          singletonHrd := true;
        }
        if cpt > 1 {
          singletonHrd := false;
          assert o in Fallen(hard, x) && first != o && FalseIn(model, hard, Trail.UpTo(|hard|), first) && FalseIn(model, hard, Trail.UpTo(|hard|), o);
          return false;
        }
      }
      assert occ[..i] == occ;
      ok := cpt == 0;
      assert !ok ==> FalseIn(model, hard, Trail.UpTo(|hard|), unsHrd);
    }

    /** After a flip in the falsified clause only clauses with the other literal can be false. */
    lemma AfterFlip(before: seq<bool>, t: Target, l: Lit)
      requires Shaped() && |before| == |model| && Hangs(before, hard, soft, Active(), t)
      requires l in (if t.Soft? then soft[t.index] else hard[t.index])
      requires l.v < |before| && model == Flipped(before, l.v)
      ensures forall i: nat :: i in Active() && !TrueClause(model, soft[i]) ==> i in Fallen(soft, l.v)
      ensures forall i: nat :: i < |hard| && !TrueClause(model, hard[i]) ==> i in Fallen(hard, l.v)
    {
      assert !TrueLit(before, l) by {
        if t.Soft? { assert !TrueClause(before, soft[t.index]); } else { assert t.index in Trail.UpTo(|hard|) && !TrueClause(before, hard[t.index]); }
      }
      assert l.Not() == Lit(l.v, model[l.v]);
      forall i: nat | i in Active() && !TrueClause(model, soft[i]) ensures i in Fallen(soft, l.v) {
        FlipEffect(before, l, soft[i]);
      }
      forall i: nat | i < |hard| && !TrueClause(model, hard[i]) ensures i in Fallen(hard, l.v) {
        assert i in Trail.UpTo(|hard|);
        FlipEffect(before, l, hard[i]);
      }
    }

    /** Nothing false outside the fallen ones, of which one soft clause is. */
    lemma HangsOnSoft(x: nat)
      requires Shaped() && x < |model| && unsSft in Fallen(soft, x) && unsSft in Active() && !TrueClause(model, soft[unsSft])
      requires forall i: nat :: i in Active() && !TrueClause(model, soft[i]) ==> i in Fallen(soft, x)
      requires forall i: nat :: i < |hard| && !TrueClause(model, hard[i]) ==> i in Fallen(hard, x)
      requires forall i: nat :: i in Fallen(soft, x) && i in Active() && i != unsSft ==> TrueClause(model, soft[i])
      requires forall i: nat :: i in Fallen(hard, x) ==> TrueClause(model, hard[i])
      ensures HangsOn(Soft(unsSft))
    {
    }

    lemma HangsOnHard(x: nat)
      requires Shaped() && x < |model| && unsHrd in Fallen(hard, x) && !TrueClause(model, hard[unsHrd])
      requires forall i: nat :: i in Active() && !TrueClause(model, soft[i]) ==> i in Fallen(soft, x)
      requires forall i: nat :: i < |hard| && !TrueClause(model, hard[i]) ==> i in Fallen(hard, x)
      requires forall i: nat :: i in Fallen(soft, x) && i in Active() ==> TrueClause(model, soft[i])
      requires forall i: nat :: i in Fallen(hard, x) && i != unsHrd ==> TrueClause(model, hard[i])
      ensures HangsOn(Hard(unsHrd))
    {
    }

    ghost function Now(): Problem
      reads this
    {
      Problem(hard, soft, Active(), set i: nat | i < |cand| && cand[i] == stampCand)
    }

    ghost function Visited(): set<nat>
      reads this
    {
      set i: nat | i < |visited| && visited[i] == stampCand
    }

    /** The variables being flipped. */
    ghost function Open(): set<nat>
      reads this
    {
      set v: nat | v < |visitedVar| && visitedVar[v]
    }

    /** The fields hold what the trace says has been visited and reported since `crits0`. */
    ghost predicate Traced(r: Trace, crits0: seq<nat>)
      reads this
    {
      Visited() == r.visited && crits == crits0 + r.crits
    }

    /** Rotates from the announced target, and puts the model back. */
    method Process()
      requires Shaped() && singletonSft != singletonHrd && HangsOn(Announced())
      requires singletonSft ==> visited[unsSft] != stampCand
      modifies this`model, this`visited, this`visitedVar, this`unsSft, this`unsHrd, this`singletonSft, this`singletonHrd, this`crits
      ensures Shaped() && model == old(model) && visitedVar == old(visitedVar)
      ensures Traced(Rotation(Now(), model, old(Visited()), Open(), old(Announced())), old(crits))
      decreases Free(model, Open()), 2
    {
      hide Hangs, InRange, Occurs, Free, Turns, Next;
      ghost var t, p, open, v0, c0 := Announced(), Now(), Open(), Visited(), crits;
      var clT: Clause;
      HangsRange(model, hard, soft, Active(), t);
      if singletonSft {
        if cand[unsSft] == stampCand { crits := crits + [unsSft]; }
        visited := visited[unsSft := stampCand];
        clT := soft[unsSft];
      } else {
        if visited[unsHrd] == stampCand { return; }
        visited := visited[unsHrd := stampCand];
        clT := hard[unsHrd];
      }
      assert Visited() == v0 + {t.index} && Now() == p && Open() == open;
      TryAll(clT, t);
      assert Now() == p && Open() == open;
    }

    /** Every literal of the falsified clause in turn. */
    method TryAll(clT: Clause, ghost t: Target)
      requires Shaped() && HangsOn(t) && clT == (if t.Soft? then soft[t.index] else hard[t.index])
      modifies this`model, this`visited, this`visitedVar, this`unsSft, this`unsHrd, this`singletonSft, this`singletonHrd, this`crits
      ensures Shaped() && model == old(model) && visitedVar == old(visitedVar)
      ensures Traced(Turns(Now(), model, old(Visited()), Open(), clT), old(crits))
      decreases Free(model, Open()), 1
    {
      hide Hangs, Occurs, Free, Rotation, Next, Turns, Turn;
      ghost var p, open, v0 := Now(), Open(), Visited();
      HangsRange(model, hard, soft, Active(), t);
      var i := 0;
      assert clT[..0] == [];
      TurnsNone(p, model, v0, open);
      while i < |clT|
        invariant 0 <= i <= |clT| && Shaped() && model == old(model) && visitedVar == old(visitedVar) && Now() == p && Open() == open
        invariant Traced(Turns(p, model, v0, open, clT[..i]), old(crits))
      {
        var l := clT[i];
        assert l in clT;
        TurnsNext(p, model, v0, open, clT, i);
        if !visitedVar[l.v] { TryFlip(l, t); }
        i := i + 1;
      }
      assert clT[..i] == clT;
    }

    /** One literal of the falsified clause: flip, go on if exactly one other clause has become false, flip back. */
    method TryFlip(l: Lit, ghost t: Target)
      requires Shaped() && HangsOn(t) && l in (if t.Soft? then soft[t.index] else hard[t.index])
      requires l.v < |model| && !visitedVar[l.v]
      modifies this`model, this`visited, this`visitedVar, this`unsSft, this`unsHrd, this`singletonSft, this`singletonHrd, this`crits
      ensures Shaped() && model == old(model) && visitedVar == old(visitedVar) && Now() == old(Now()) && Open() == old(Open())
      ensures Traced(Turn(Now(), model, old(Visited()), Open(), l.v), old(crits))
      decreases Free(model, Open()), 0
    {
      hide Hangs, InRange, Occurs, TrueClause, Rotation, Next, Turns, Free, ModelRotator.Now, ModelRotator.Visited, AllBut, Fallen, ClauseOf;
      var x := l.v;
      HangsRange(model, hard, soft, Active(), t);
      ghost var open := Open();
      NotOpen(x);
      MarkVar(x, true);
      Flip(x);
      FreeLess(old(model), model, open, x);
      AfterFlip(old(model), t, l);
      GoOn(x);
      Flip(x);
      assert model == old(model);
      MarkVar(x, false);
      assert visitedVar == old(visitedVar);
    }

    lemma NotOpen(x: nat)
      requires x < |visitedVar| && !visitedVar[x]
      ensures x !in Open() && Open() + {x} - {x} == Open()
    {
    }

    /** After a flip: on with the rotation if exactly one hard or active soft clause has become false. */
    method GoOn(x: nat)
      requires Shaped() && x < |model|
      requires forall i: nat :: i in Active() && !TrueClause(model, soft[i]) ==> i in Fallen(soft, x)
      requires forall i: nat :: i < |hard| && !TrueClause(model, hard[i]) ==> i in Fallen(hard, x)
      modifies this`model, this`visited, this`visitedVar, this`unsSft, this`unsHrd, this`singletonSft, this`singletonHrd, this`crits
      ensures Shaped() && model == old(model) && visitedVar == old(visitedVar) && Now() == old(Now()) && Open() == old(Open())
      ensures match Next(Now(), model, old(Visited()))
        case None => Traced(Trace(old(Visited()), [], {}, {}), old(crits))
        case Some(t) => Traced(Rotation(Now(), model, old(Visited()), Open(), t), old(crits))
      decreases Free(model, Open()), 3
    {
      hide Hangs, InRange, Occurs, TrueClause, Free, Rotation, Turns, Next, Fallen;
      ghost var p, open, v0 := Now(), Open(), Visited();
      var next := Announce(x);
      assert Now() == p && Open() == open && Visited() == v0;
      if next {
        NextIs(p, model, v0, Announced());
        Process();
        assert Now() == p && Open() == open;
      } else {
        NextNone(p, model, v0);
      }
    }

    /** Whether exactly one hard or active soft clause has become false that is not visited yet; the fields then name it. */
    method Announce(x: nat) returns (next: bool)
      requires Shaped() && x < |model|
      requires forall i: nat :: i in Active() && !TrueClause(model, soft[i]) ==> i in Fallen(soft, x)
      requires forall i: nat :: i < |hard| && !TrueClause(model, hard[i]) ==> i in Fallen(hard, x)
      modifies this`unsSft, this`unsHrd, this`singletonSft, this`singletonHrd
      ensures next ==> singletonSft != singletonHrd && HangsOn(Announced()) && (singletonSft ==> visited[unsSft] != stampCand)
      ensures !next ==> forall t' :: HangsOn(t') ==> t'.Soft? && t'.index < |visited| && visited[t'.index] == stampCand
    {
      hide Hangs, InRange, Occurs, TrueClause;
      ghost var active := Active();
      singletonSft, singletonHrd := false, false;
      var satSft := SatisfyClS(x);
      assert Active() == active;
      OnlyOneFalse(model, hard, soft, active);
      next := false;
      if (singletonSft || satSft) && !(singletonSft && visited[unsSft] == stampCand) {
        var satHrd := SatisfyClH(x);
        assert Active() == active;
        if singletonSft && satHrd {
          HangsOnSoft(x);
          next := true;
        } else if satSft && singletonHrd {
          HangsOnHard(x);
          next := true;
        } else {
          if satSft && satHrd { NoneFalse(x); }
          NothingHangs(model, hard, soft, active);
        }
      } else if singletonSft {
        assert FalseIn(model, soft, active, unsSft);
      } else {
        NothingHangs(model, hard, soft, active);
      }
    }

    /** Nothing false among the fallen clauses, so nothing at all. */
    lemma NoneFalse(x: nat)
      requires Shaped() && x < |model|
      requires forall i: nat :: i in Active() && !TrueClause(model, soft[i]) ==> i in Fallen(soft, x)
      requires forall i: nat :: i < |hard| && !TrueClause(model, hard[i]) ==> i in Fallen(hard, x)
      requires forall i: nat :: i in Fallen(soft, x) && i in Active() ==> TrueClause(model, soft[i])
      requires forall i: nat :: i in Fallen(hard, x) ==> TrueClause(model, hard[i])
      ensures forall i: nat :: !FalseIn(model, soft, Active(), i) && !FalseIn(model, hard, Trail.UpTo(|hard|), i)
    {
    }

    /** A new core: only its clauses count as active. */
    method UpdateSatCore(core: seq<nat>)
      requires Shaped() && forall i :: i in core ==> i < |soft|
      modifies this`stampCore, this`actived
      ensures Shaped() && Active() == set i | i in core
    {
      hide InRange, Occurs;
      stampCore := stampCore + 1;
      var k := 0;
      while k < |core|
        invariant 0 <= k <= |core| && Shaped()
        invariant forall i: nat :: i in Active() <==> i in core[..k]
      {
        assert core[..k + 1] == core[..k] + [core[k]] && core[k] in core;
        actived := actived[core[k] := stampCore];
        k := k + 1;
      }
      assert core[..k] == core;
    }

    /** Fresh stamps: the clauses of the core are the candidates, and active. */
    method Setup(core: seq<nat>, tc: nat)
      requires Shaped() && (forall i :: i in core ==> i < |soft|) && tc in core
      modifies this`stampCand, this`cand, this`actived, this`unsSft, this`unsHrd, this`singletonSft, this`singletonHrd
      ensures Shaped() && Active() == old(Active()) + set i | i in core
      ensures forall i: nat :: i < |cand| && cand[i] == stampCand <==> i in core
      ensures forall i :: 0 <= i < |visited| ==> visited[i] < stampCand
      ensures singletonSft && !singletonHrd && unsSft == tc
    {
      hide InRange, Occurs;
      unsSft, unsHrd, singletonSft, singletonHrd := 0, 0, true, false;
      stampCand := stampCand + 1;
      var k := 0;
      while k < |core|
        modifies this`cand, this`actived
        invariant 0 <= k <= |core| && Shaped()
        invariant forall i: nat :: i in Active() <==> i in old(Active()) || i in core[..k]
        invariant forall i: nat :: i < |cand| && cand[i] == stampCand <==> i in core[..k]
      {
        assert core[..k + 1] == core[..k] + [core[k]] && core[k] in core;
        cand := cand[core[k] := stampCand];
        actived := actived[core[k] := stampCore];
        k := k + 1;
      }
      assert core[..k] == core;
      unsSft := tc;
    }

    /** A whole rotation: ends, restores the model, and adds to the reports those of the rotation from `tc`. */
    method Rotate(core: seq<nat>, tc: nat)
      requires Shaped() && (forall i :: i in core ==> i < |soft|) && tc in core && forall v :: 0 <= v < |visitedVar| ==> !visitedVar[v]
      requires Hangs(model, hard, soft, Active() + (set i | i in core), Soft(tc))
      modifies this`model, this`visited, this`visitedVar, this`stampCand, this`cand, this`actived
      modifies this`unsSft, this`unsHrd, this`singletonSft, this`singletonHrd, this`crits
      ensures Shaped() && model == old(model) && visitedVar == old(visitedVar)
      ensures Now() == Problem(hard, soft, old(Active()) + (set i | i in core), set i | i in core)
      ensures var r := Rotation(Now(), model, {}, {}, Soft(tc));
        crits == old(crits) + r.crits && Fair(Now(), |model|, {}, r) && |r.crits| > 0 && r.crits[0] == tc
        && Explores(Now(), Place(model, Soft(tc), {}), {}, r)
    {
      hide Hangs, InRange, Occurs, Turns, Fair, Next, Explores;
      Setup(core, tc);
      assert cand[tc] == stampCand;
      assert Visited() == {} && Open() == {} && Now() == Problem(hard, soft, old(Active()) + (set i | i in core), set i | i in core);
      ghost var p := Now();
      RotationFair(p, model, {}, {}, Soft(tc));
      RotationExplores(p, model, {}, {}, Soft(tc));
      Process();
      assert Now() == p && Open() == {};
    }
  }

  lemma FreeLess(m: seq<bool>, m': seq<bool>, open: set<nat>, x: nat)
    requires |m'| == |m| && x < |m| && x !in open
    ensures Free(m', open + {x}) < Free(m, open)
  {
    assert x in Free(m, open);
  }

  lemma NextIs(p: Problem, m: seq<bool>, visited: set<nat>, t: Target)
    requires HangsIn(p, m, t) && !(t.Soft? && t.index in visited)
    ensures Next(p, m, visited) == Some(t)
  {
    hide Hangs;
    SeenOnly(m, p.hard, p.soft, p.active, t);
  }

  lemma NextNone(p: Problem, m: seq<bool>, visited: set<nat>)
    requires forall t :: HangsIn(p, m, t) ==> t.Soft? && t.index in visited
    ensures Next(p, m, visited) == None
  {
    hide Hangs;
  }

  ghost predicate FalseIn(m: seq<bool>, clauses: seq<Clause>, among: set<nat>, i: nat) {
    i < |clauses| && i in among && !TrueClause(m, clauses[i])
  }

  ghost predicate TwoFalse(m: seq<bool>, clauses: seq<Clause>, among: set<nat>) {
    exists i: nat, j: nat :: i != j && FalseIn(m, clauses, among, i) && FalseIn(m, clauses, among, j)
  }

  /** Where the model hangs on a clause, that one only is false. */
  lemma OnlyOneFalse(m: seq<bool>, hard: seq<Clause>, soft: seq<Clause>, active: set<nat>)
    ensures forall t, i: nat :: Hangs(m, hard, soft, active, t) && FalseIn(m, soft, active, i) ==> t == Soft(i)
    ensures forall t, i: nat :: Hangs(m, hard, soft, active, t) && FalseIn(m, hard, Trail.UpTo(|hard|), i) ==> t == Hard(i)
    ensures forall t :: Hangs(m, hard, soft, active, t) && t.Soft? ==> FalseIn(m, soft, active, t.index)
    ensures forall t :: Hangs(m, hard, soft, active, t) && t.Hard? ==> FalseIn(m, hard, Trail.UpTo(|hard|), t.index)
  {
  }

  /** A model hangs on one clause at most. */
  lemma SeenOnly(m: seq<bool>, hard: seq<Clause>, soft: seq<Clause>, active: set<nat>, t: Target)
    requires Hangs(m, hard, soft, active, t)
    ensures forall u :: Hangs(m, hard, soft, active, u) ==> u == t
  {
    hide Hangs, FalseIn;
    OnlyOneFalse(m, hard, soft, active);
  }

  /** With no clause false, or one of each kind, or two of them, the model hangs on none. */
  lemma NothingHangs(m: seq<bool>, hard: seq<Clause>, soft: seq<Clause>, active: set<nat>)
    requires
      || (forall i: nat :: !FalseIn(m, soft, active, i) && !FalseIn(m, hard, Trail.UpTo(|hard|), i))
      || ((exists i: nat :: FalseIn(m, soft, active, i)) && exists i: nat :: FalseIn(m, hard, Trail.UpTo(|hard|), i))
      || TwoFalse(m, soft, active) || TwoFalse(m, hard, Trail.UpTo(|hard|))
    ensures forall t :: !Hangs(m, hard, soft, active, t)
  {
    hide Hangs, FalseIn;
    OnlyOneFalse(m, hard, soft, active);
  }

  lemma HangsRange(m: seq<bool>, hard: seq<Clause>, soft: seq<Clause>, active: set<nat>, t: Target)
    requires Hangs(m, hard, soft, active, t)
    ensures if t.Soft? then t.index < |soft| else t.index < |hard|
  {
  }

  /** What a report is good for: a critical clause is in every set of active clauses that no assignment satisfies. */
  lemma CriticalInEveryCore(n: nat, hard: seq<Clause>, soft: seq<Clause>, active: set<nat>, i: nat, core: set<nat>)
    requires Critical(n, hard, soft, active, i) && core <= active && forall k :: k in core ==> k < |soft|
    requires forall m: seq<bool> :: |m| == n && (forall k: nat :: k < |hard| ==> TrueClause(m, hard[k])) ==>
      exists k: nat :: k in core && !TrueClause(m, soft[k])
    ensures i in core
  {
    var m: seq<bool> :| |m| == n && Hangs(m, hard, soft, active, Soft(i));
    forall k: nat | k < |hard| ensures TrueClause(m, hard[k]) { assert k in Trail.UpTo(|hard|); }
  }
}
