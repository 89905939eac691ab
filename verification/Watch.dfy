/** Two watched literals per clause: which watchers must exist, and what a falsified watch
    that has already been propagated tells about its clause. */
module Watch {
  import opened Cnf
  import opened Trail

  datatype Watcher = Watcher(cref: CRef, blocker: Lit)

  type Watches = map<Lit, seq<Watcher>>

  /** Stored clauses have two or more literals over distinct declared variables. */
  ghost predicate ClausesOk(ca: map<CRef, Clause>, n: nat) {
    forall cr :: cr in ca ==> |ca[cr]| >= 2 && DistinctVars(ca[cr]) && forall k :: 0 <= k < |ca[cr]| ==> ca[cr][k].v < n
  }

  lemma ClauseFacts(ca: map<CRef, Clause>, n: nat, cr: CRef)
    requires ClausesOk(ca, n) && cr in ca
    ensures |ca[cr]| >= 2 && DistinctVars(ca[cr]) && forall k :: 0 <= k < |ca[cr]| ==> ca[cr][k].v < n
  {
  }

  ghost predicate Watched(ws: seq<Watcher>, cr: CRef) {
    exists i :: 0 <= i < |ws| && ws[i].cref == cr
  }

  ghost predicate WatcherOk(ca: map<CRef, Clause>, p: Lit, w: Watcher) {
    w.cref in ca && |ca[w.cref]| >= 2 && w.blocker in ca[w.cref] && (ca[w.cref][0].Not() == p || ca[w.cref][1].Not() == p)
  }

  ghost predicate ListOk(ca: map<CRef, Clause>, p: Lit, ws: seq<Watcher>) {
    && (forall i :: 0 <= i < |ws| ==> WatcherOk(ca, p, ws[i]))
    && (forall i, j :: 0 <= i < j < |ws| ==> ws[i].cref != ws[j].cref)
  }

  ghost predicate ListsOk(ca: map<CRef, Clause>, watches: Watches) {
    forall p :: p in watches ==> ListOk(ca, p, watches[p])
  }

  ghost predicate AllWatched(ca: map<CRef, Clause>, watches: Watches) {
    forall cr :: cr in ca ==>
      |ca[cr]| >= 2 && ca[cr][0].Not() in watches && ca[cr][1].Not() in watches
      && Watched(watches[ca[cr][0].Not()], cr) && Watched(watches[ca[cr][1].Not()], cr)
  }

  /** The list of `p` holds exactly the clauses having `p`'s negation among their first two literals. */
  ghost predicate WatchesOk(ca: map<CRef, Clause>, watches: Watches, n: nat) {
    (forall p: Lit :: p.v < n ==> p in watches) && ListsOk(ca, watches) && AllWatched(ca, watches)
  }

  lemma WatcherFacts(ca: map<CRef, Clause>, watches: Watches, n: nat, p: Lit, i: nat)
    requires WatchesOk(ca, watches, n) && p in watches && i < |watches[p]|
    ensures WatcherOk(ca, p, watches[p][i])
  {
    assert ListOk(ca, p, watches[p]);
  }

  /** As `WatchesOk`, but lists may still hold watchers of clauses removed since the last cleaning. */
  ghost predicate WatchesLazy(ca: map<CRef, Clause>, watches: Watches, n: nat) {
    WatchesOk(ca, CleanAll(ca, watches), n) && forall p :: p in watches ==> p.v < n
  }

  function Clean(ca: map<CRef, Clause>, ws: seq<Watcher>): (r: seq<Watcher>)
    ensures |r| <= |ws|
  {
    if ws == [] then [] else
    var rest := Clean(ca, ws[..|ws| - 1]);
    if ws[|ws| - 1].cref in ca then rest + [ws[|ws| - 1]] else rest
  }

  function CleanAll(ca: map<CRef, Clause>, watches: Watches): Watches {
    map p | p in watches :: Clean(ca, watches[p])
  }

  /** Some literal of `c` is true at a level no higher than `lev`. */
  ghost predicate SatisfiedBy(t: State, c: Clause, lev: nat) {
    |t.assigns| == |t.vardata| && exists k :: 0 <= k < |c| && IsTrue(t, c[k]) && t.vardata[c[k].v].level <= lev
  }

  ghost predicate WatchFine(t: State, c: Clause, l: Lit, q: nat) {
    |t.assigns| == |t.vardata| == |t.pos| &&
    (IsFalse(t, l) && t.floor <= t.pos[l.v] < q ==> SatisfiedBy(t, c, t.vardata[l.v].level))
  }

  ghost predicate Exempt(rest: seq<Watcher>, cr: CRef, w: Lit, p: Lit) {
    Watched(rest, cr) && w.Not() == p
  }

  /** A watch falsified before trail position `q` belongs to a satisfied clause; watches of `p`
      in the list `rest` are exempt. */
  ghost predicate Propagated(ca: map<CRef, Clause>, t: State, q: nat, p: Lit, rest: seq<Watcher>) {
    forall cr :: cr in ca && |ca[cr]| >= 2 ==>
      && (Exempt(rest, cr, ca[cr][0], p) || WatchFine(t, ca[cr], ca[cr][0], q))
      && (Exempt(rest, cr, ca[cr][1], p) || WatchFine(t, ca[cr], ca[cr][1], q))
  }

  ghost predicate PropagatedTo(ca: map<CRef, Clause>, t: State, q: nat) {
    forall cr :: cr in ca && |ca[cr]| >= 2 ==> WatchFine(t, ca[cr], ca[cr][0], q) && WatchFine(t, ca[cr], ca[cr][1], q)
  }

  /** No clause is falsified, and no clause has a single unassigned literal and no true one. */
  ghost predicate Quiet(ca: map<CRef, Clause>, t: State) {
    forall cr :: cr in ca ==>
      || (exists k :: 0 <= k < |ca[cr]| && IsTrue(t, ca[cr][k]))
      || (exists i, j :: 0 <= i < j < |ca[cr]| && !IsFalse(t, ca[cr][i]) && !IsFalse(t, ca[cr][j]))
  }

  lemma PropagatedIsQuiet(ca: map<CRef, Clause>, t: State)
    requires Wf(t) && PropagatedTo(ca, t, |t.trail|) && t.floor == 0
    requires forall cr :: cr in ca ==> |ca[cr]| >= 2
    ensures Quiet(ca, t)
  {
    forall cr | cr in ca
      ensures (exists k :: 0 <= k < |ca[cr]| && IsTrue(t, ca[cr][k]))
        || (exists i, j :: 0 <= i < j < |ca[cr]| && !IsFalse(t, ca[cr][i]) && !IsFalse(t, ca[cr][j]))
    {
      var c := ca[cr];
      assert WatchFine(t, c, c[0], |t.trail|) && WatchFine(t, c, c[1], |t.trail|);
      if !IsFalse(t, c[0]) && !IsFalse(t, c[1]) {
      } else if IsFalse(t, c[0]) {
        TrueFacts(t, c[0]);
      } else {
        TrueFacts(t, c[1]);
      }
    }
  }

  // ----- propagation facts survive the changes of the trail -----

  lemma EnqFine(t: State, l: Lit, from: Option<CRef>, c: Clause, w: Lit, q: nat)
    requires Wf(t) && l.v < |t.assigns| && t.assigns[l.v] == LUndef && q <= |t.trail|
    requires WatchFine(t, c, w, q)
    ensures WatchFine(Enq(t, l, from), c, w, q)
  {
    var t' := Enq(t, l, from);
    if IsFalse(t', w) && t.floor <= t'.pos[w.v] < q {
      assert w.v != l.v;
      var k :| 0 <= k < |c| && IsTrue(t, c[k]) && t.vardata[c[k].v].level <= t.vardata[w.v].level;
      assert IsTrue(t', c[k]) && t'.vardata[c[k].v].level <= t'.vardata[w.v].level;
    }
  }

  lemma EnqPropagated(ca: map<CRef, Clause>, t: State, l: Lit, from: Option<CRef>, q: nat, p: Lit, rest: seq<Watcher>)
    requires Wf(t) && l.v < |t.assigns| && t.assigns[l.v] == LUndef && q <= |t.trail|
    requires Propagated(ca, t, q, p, rest)
    ensures Propagated(ca, Enq(t, l, from), q, p, rest)
  {
    forall cr | cr in ca && |ca[cr]| >= 2
      ensures Exempt(rest, cr, ca[cr][0], p) || WatchFine(Enq(t, l, from), ca[cr], ca[cr][0], q)
      ensures Exempt(rest, cr, ca[cr][1], p) || WatchFine(Enq(t, l, from), ca[cr], ca[cr][1], q)
    {
      if WatchFine(t, ca[cr], ca[cr][0], q) { EnqFine(t, l, from, ca[cr], ca[cr][0], q); }
      if WatchFine(t, ca[cr], ca[cr][1], q) { EnqFine(t, l, from, ca[cr], ca[cr][1], q); }
    }
  }

  lemma NoExemption(ca: map<CRef, Clause>, t: State, q: nat, p: Lit)
    ensures PropagatedTo(ca, t, q) <==> Propagated(ca, t, q, p, [])
  {
  }

  /** Before the literals of a level are looked at, the watches of `p` on that level need no exemption. */
  lemma PropagatedBelow(ca: map<CRef, Clause>, t: State, q: nat, q': nat, p: Lit, rest: seq<Watcher>)
    requires Wf(t) && Propagated(ca, t, q, p, rest) && q' <= q
    requires IsTrue(t, p) && q' <= t.pos[p.v]
    ensures PropagatedTo(ca, t, q')
  {
    forall cr | cr in ca && |ca[cr]| >= 2 ensures WatchFine(t, ca[cr], ca[cr][0], q') && WatchFine(t, ca[cr], ca[cr][1], q') {
      if ca[cr][0].Not() == p { assert !(t.pos[ca[cr][0].v] < q'); }
      if ca[cr][1].Not() == p { assert !(t.pos[ca[cr][1].v] < q'); }
    }
  }

  lemma CancelPropagated(ca: map<CRef, Clause>, t: State, level: nat, q: nat)
    requires Wf(t) && level < |t.lim| && t.lim[level] <= q
    requires PropagatedTo(ca, t, q)
    ensures PropagatedTo(ca, CancelTo(t, level), t.lim[level])
  {
    var t' := CancelTo(t, level);
    forall cr, w | cr in ca && |ca[cr]| >= 2 && w in {ca[cr][0], ca[cr][1]} ensures WatchFine(t', ca[cr], w, t.lim[level]) {
      CancelFine(t, level, ca[cr], w, q);
    }
  }

  lemma CancelFine(t: State, level: nat, c: Clause, w: Lit, q: nat)
    requires Wf(t) && level < |t.lim| && t.lim[level] <= q && WatchFine(t, c, w, q)
    ensures WatchFine(CancelTo(t, level), c, w, t.lim[level])
  {
    var t' := CancelTo(t, level);
    if IsFalse(t', w) {
      CancelKeeps(t, level, w);
      TrueFacts(t, w);
      if t.floor <= t.pos[w.v] < t.lim[level] {
        var k :| 0 <= k < |c| && IsTrue(t, c[k]) && t.vardata[c[k].v].level <= t.vardata[w.v].level;
        CancelKeeps(t, level, c[k]);
        assert IsTrue(t', c[k]) && t'.vardata[c[k].v].level <= t'.vardata[w.v].level;
      }
    }
  }

  /** Above the whole trail, no place counts. */
  lemma NothingCounts(ca: map<CRef, Clause>, t: State)
    requires Wf(t) && t.floor == |t.trail|
    ensures PropagatedTo(ca, t, |t.trail|)
  {
  }

  lemma NewLevelPropagated(ca: map<CRef, Clause>, t: State, q: nat)
    requires PropagatedTo(ca, t, q)
    ensures PropagatedTo(ca, NewLevel(t), q)
  {
    forall cr, w | cr in ca && |ca[cr]| >= 2 && w in {ca[cr][0], ca[cr][1]} ensures WatchFine(NewLevel(t), ca[cr], w, q) {
      assert WatchFine(t, ca[cr], w, q);
      if IsFalse(t, w) && t.floor <= t.pos[w.v] < q {
        var k :| 0 <= k < |ca[cr]| && IsTrue(t, ca[cr][k]) && t.vardata[ca[cr][k].v].level <= t.vardata[w.v].level;
        assert IsTrue(NewLevel(t), ca[cr][k]);
      }
    }
  }

  // ----- one visited watcher -----

  /** `d` has the literals of `c` in another order. */
  ghost predicate Reordered(c: Clause, d: Clause) {
    |c| == |d| && Lits(c) == Lits(d) && (DistinctVars(c) ==> DistinctVars(d))
  }

  /** The same clauses, each up to the order of its literals. */
  ghost predicate SameClauses(ca: map<CRef, Clause>, ca': map<CRef, Clause>) {
    ca.Keys == ca'.Keys && forall cr :: cr in ca ==> Reordered(ca[cr], ca'[cr])
  }

  function Swapped(c: Clause, i: nat, j: nat): Clause
    requires i < |c| && j < |c|
  {
    c[i := c[j]][j := c[i]]
  }

  lemma SwapReorders(c: Clause, i: nat, j: nat)
    requires i < |c| && j < |c|
    ensures Reordered(c, Swapped(c, i, j))
  {
    var d := Swapped(c, i, j);
    forall l | l in c ensures l in d {
      var k :| 0 <= k < |c| && c[k] == l;
      assert d[if k == i then j else if k == j then i else k] == l;
    }
    forall l | l in d ensures l in c {
      var k :| 0 <= k < |d| && d[k] == l;
      assert c[if k == i then j else if k == j then i else k] == l;
    }
  }

  lemma SameClausesRefl(ca: map<CRef, Clause>)
    ensures SameClauses(ca, ca)
  {
  }

  lemma SameClausesTrans(a: map<CRef, Clause>, b: map<CRef, Clause>, c: map<CRef, Clause>)
    requires SameClauses(a, b) && SameClauses(b, c)
    ensures SameClauses(a, c)
  {
    forall cr | cr in a ensures Reordered(a[cr], c[cr]) {
      assert Reordered(a[cr], b[cr]) && Reordered(b[cr], c[cr]);
    }
  }

  lemma ReorderOne(ca: map<CRef, Clause>, cr: CRef, d: Clause, n: nat)
    requires ClausesOk(ca, n) && cr in ca && Reordered(ca[cr], d)
    ensures ClausesOk(ca[cr := d], n) && SameClauses(ca, ca[cr := d])
  {
    forall k | 0 <= k < |d| ensures d[k].v < n {
      assert d[k] in Lits(ca[cr]);
    }
  }

  /** A clause whose first literal is not true implies nothing, so it may be reordered. */
  lemma ReorderReasons(ca: map<CRef, Clause>, t: State, cr: CRef, d: Clause)
    requires ReasonsOk(ca, t) && cr in ca && |ca[cr]| > 0 && !IsTrue(t, ca[cr][0])
    ensures ReasonsOk(ca[cr := d], t)
  {
    var ca' := ca[cr := d];
    forall i | 0 <= i < |t.trail| ensures ReasonOk(ca', t, i) {
      assert ReasonOk(ca, t, i);
    }
  }

  lemma SatisfiedReordered(t: State, c: Clause, d: Clause, lev: nat)
    requires SatisfiedBy(t, c, lev) && Lits(c) == Lits(d)
    ensures SatisfiedBy(t, d, lev)
  {
    var k :| 0 <= k < |c| && IsTrue(t, c[k]) && t.vardata[c[k].v].level <= lev;
    assert c[k] in Lits(d);
    var j :| 0 <= j < |d| && d[j] == c[k];
  }

  lemma FineReordered(t: State, c: Clause, d: Clause, w: Lit, q: nat)
    requires WatchFine(t, c, w, q) && Lits(c) == Lits(d)
    ensures WatchFine(t, d, w, q)
  {
    if IsFalse(t, w) && t.floor <= t.pos[w.v] < q { SatisfiedReordered(t, c, d, t.vardata[w.v].level); }
  }

  /** Exchanging the two watches of a clause disturbs no list and no propagation fact. */
  lemma SwapWatches(ca: map<CRef, Clause>, t: State, watches: Watches, n: nat, cr: CRef, q: nat, p: Lit, rest: seq<Watcher>)
    requires WatchesOk(ca, watches, n) && Propagated(ca, t, q, p, rest)
    requires cr in ca
    ensures var ca' := ca[cr := Swapped(ca[cr], 0, 1)];
      WatchesOk(ca', watches, n) && Propagated(ca', t, q, p, rest)
  {
    hide WatchFine, Exempt;
    var c := ca[cr];
    var d := Swapped(c, 0, 1);
    SwapReorders(c, 0, 1);
    SwapLists(ca, watches, n, cr);
    if WatchFine(t, c, c[0], q) { FineReordered(t, c, d, c[0], q); }
    if WatchFine(t, c, c[1], q) { FineReordered(t, c, d, c[1], q); }
  }

  lemma SwapLists(ca: map<CRef, Clause>, watches: Watches, n: nat, cr: CRef)
    requires WatchesOk(ca, watches, n) && cr in ca && |ca[cr]| >= 2
    ensures WatchesOk(ca[cr := Swapped(ca[cr], 0, 1)], watches, n)
  {
    var d := Swapped(ca[cr], 0, 1);
    var ca' := ca[cr := d];
    SwapReorders(ca[cr], 0, 1);
    forall p0 | p0 in watches ensures ListOk(ca', p0, watches[p0]) {
      assert ListOk(ca, p0, watches[p0]);
      forall i | 0 <= i < |watches[p0]| ensures WatcherOk(ca', p0, watches[p0][i]) {
        assert WatcherOk(ca, p0, watches[p0][i]);
        assert watches[p0][i].cref == cr ==> watches[p0][i].blocker in Lits(d);
      }
    }
  }

  /** A visited watcher stays in the list of `p`, possibly with a new blocker. */
  lemma KeepWatcher(ca: map<CRef, Clause>, watches: Watches, n: nat, p: Lit,
                    kept: seq<Watcher>, w: Watcher, w': Watcher, rest: seq<Watcher>)
    requires p in watches && watches[p] == kept + [w] + rest && WatchesOk(ca, watches, n)
    requires w.cref in ca && w'.cref == w.cref && w'.blocker in ca[w.cref]
    ensures WatchesOk(ca, watches[p := kept + [w'] + rest], n)
  {
    var ws, ws' := watches[p], kept + [w'] + rest;
    var watches' := watches[p := ws'];
    assert ws' == ws[|kept| := w'] && ws[|kept|] == w;
    KeepList(ca, p, ws, |kept|, w');
    forall cr, q | cr in ca && q in {ca[cr][0].Not(), ca[cr][1].Not()} ensures Watched(watches'[q], cr) {
      assert Watched(watches[q], cr);
      if q == p { KeepWatched(ws, |kept|, w', cr); }
    }
  }

  lemma KeepList(ca: map<CRef, Clause>, p: Lit, ws: seq<Watcher>, i: nat, w': Watcher)
    requires ListOk(ca, p, ws) && i < |ws| && w'.cref == ws[i].cref && w'.cref in ca && w'.blocker in ca[w'.cref]
    ensures ListOk(ca, p, ws[i := w'])
  {
    var ws' := ws[i := w'];
    forall j | 0 <= j < |ws'| ensures WatcherOk(ca, p, ws'[j]) { assert WatcherOk(ca, p, ws[j]); }
    forall j, k | 0 <= j < k < |ws'| ensures ws'[j].cref != ws'[k].cref { assert ws[j].cref != ws[k].cref; }
  }

  lemma KeepWatched(ws: seq<Watcher>, i: nat, w': Watcher, cr: CRef)
    requires Watched(ws, cr) && i < |ws| && w'.cref == ws[i].cref
    ensures Watched(ws[i := w'], cr)
  {
    var j :| 0 <= j < |ws| && ws[j].cref == cr;
    assert ws[i := w'][j].cref == cr;
  }

  /** A watcher whose clause is satisfied early enough needs no exemption any more. */
  lemma Visited(ca: map<CRef, Clause>, t: State, q: nat, p: Lit, w: Watcher, rest: seq<Watcher>)
    requires Propagated(ca, t, q, p, [w] + rest) && Wf(t) && IsTrue(t, p)
    requires w.cref in ca ==> SatisfiedBy(t, ca[w.cref], t.vardata[p.v].level)
    ensures Propagated(ca, t, q, p, rest)
  {
    forall cr, l | cr in ca && |ca[cr]| >= 2 && l in {ca[cr][0], ca[cr][1]} ensures Exempt(rest, cr, l, p) || WatchFine(t, ca[cr], l, q) {
      if Exempt([w] + rest, cr, l, p) {
        var i :| 0 <= i < |[w] + rest| && ([w] + rest)[i].cref == cr;
        if i > 0 { assert rest[i - 1].cref == cr; }
      }
    }
  }

  /** The clause of `w` moves its second watch from `p`'s negation to its literal `k`. */
  lemma MoveWatcher(ca: map<CRef, Clause>, watches: Watches, n: nat, p: Lit,
                    kept: seq<Watcher>, w: Watcher, w': Watcher, rest: seq<Watcher>, k: nat)
    requires p in watches && watches[p] == kept + [w] + rest && WatchesOk(ca, watches, n) && ClausesOk(ca, n)
    requires w.cref in ca && 2 <= k < |ca[w.cref]| && ca[w.cref][1] == p.Not()
    requires w'.cref == w.cref && w'.blocker in ca[w.cref]
    ensures var c := ca[w.cref]; var d := Swapped(c, 1, k); var r := d[1].Not();
      && r != p && r in watches
      && WatchesOk(ca[w.cref := d], watches[p := kept + rest][r := watches[r] + [w']], n)
  {
    var c := ca[w.cref];
    var d := Swapped(c, 1, k);
    var r := d[1].Not();
    var ca' := ca[w.cref := d];
    var ws, ws' := watches[p], kept + rest;
    var watches' := watches[p := ws'][r := watches[r] + [w']];
    SwapReorders(c, 1, k);
    assert c[1].v != c[k].v && c[0].v != c[k].v;
    assert ListOk(ca, p, ws) && ListOk(ca, r, watches[r]);
    MoveLists(ca, watches, p, kept, w, rest, d);
    NewList(ca, r, watches[r], w', d);
    forall p0 | p0 in watches' ensures ListOk(ca', p0, watches'[p0]) {
      if p0 != r && p0 != p { OtherList(ca, p0, watches[p0], w.cref, d); }
    }
    MoveAllWatched(ca, watches, p, kept, w, w', rest, k);
  }

  /** After the move every clause still has its two watchers. */
  lemma MoveAllWatched(ca: map<CRef, Clause>, watches: Watches, p: Lit, kept: seq<Watcher>, w: Watcher, w': Watcher, rest: seq<Watcher>, k: nat)
    requires p in watches && watches[p] == kept + [w] + rest && AllWatched(ca, watches) && w.cref in ca && w'.cref == w.cref
    requires 2 <= k < |ca[w.cref]| && ca[w.cref][1] == p.Not() && ca[w.cref][0] != ca[w.cref][1]
    requires ca[w.cref][k].Not() != p && ca[w.cref][k].Not() in watches && forall cr :: cr in ca ==> |ca[cr]| >= 2
    ensures var c := ca[w.cref]; var r := c[k].Not();
      AllWatched(ca[w.cref := Swapped(c, 1, k)], watches[p := kept + rest][r := watches[r] + [w']])
  {
    var c := ca[w.cref];
    var ca': map<CRef, Clause> := ca[w.cref := Swapped(c, 1, k)];
    var r := c[k].Not();
    var watches' := watches[p := kept + rest][r := watches[r] + [w']];
    forall cr, q | cr in ca' && q in {ca'[cr][0].Not(), ca'[cr][1].Not()} ensures q in watches' && Watched(watches'[q], cr) {
      if cr == w.cref && q == r {
        assert watches'[r][|watches[r]|].cref == cr;
      } else {
        assert Watched(watches[q], cr);
        MoveWatched(watches, p, kept, w, rest, r, w', q, cr);
      }
    }
  }

  lemma MoveWatched(watches: Watches, p: Lit, kept: seq<Watcher>, w: Watcher, rest: seq<Watcher>, r: Lit, w': Watcher, q: Lit, cr: CRef)
    requires p in watches && watches[p] == kept + [w] + rest && r in watches && r != p
    requires q in watches && Watched(watches[q], cr) && (q == p ==> cr != w.cref)
    ensures Watched(watches[p := kept + rest][r := watches[r] + [w']][q], cr)
  {
    var ws := watches[p := kept + rest][r := watches[r] + [w']][q];
    var i :| 0 <= i < |watches[q]| && watches[q][i].cref == cr;
    assert ws[if q == p && i >= |kept| then i - 1 else i].cref == cr;
  }

  lemma NewList(ca: map<CRef, Clause>, r: Lit, ws: seq<Watcher>, w': Watcher, d: Clause)
    requires ListOk(ca, r, ws) && w'.cref in ca && |ca[w'.cref]| == |d| >= 2 && Lits(ca[w'.cref]) == Lits(d)
    requires w'.blocker in ca[w'.cref] && d[1].Not() == r
    requires ca[w'.cref][0].Not() != r && ca[w'.cref][1].Not() != r
    ensures ListOk(ca[w'.cref := d], r, ws + [w'])
  {
    forall i | 0 <= i < |ws| ensures WatcherOk(ca[w'.cref := d], r, ws[i]) && ws[i].cref != w'.cref {
      assert WatcherOk(ca, r, ws[i]);
    }
    assert w'.blocker in Lits(d);
  }

  lemma MoveLists(ca: map<CRef, Clause>, watches: Watches, p: Lit, kept: seq<Watcher>, w: Watcher, rest: seq<Watcher>, d: Clause)
    requires p in watches && watches[p] == kept + [w] + rest && ListOk(ca, p, watches[p])
    requires w.cref in ca
    ensures ListOk(ca[w.cref := d], p, kept + rest)
  {
    var ws, ws' := watches[p], kept + rest;
    assert ws[|kept|] == w;
    forall i | 0 <= i < |ws'| ensures WatcherOk(ca[w.cref := d], p, ws'[i]) {
      var j := if i < |kept| then i else i + 1;
      assert ws'[i] == ws[j] && WatcherOk(ca, p, ws[j]) && ws[j].cref != w.cref;
    }
    forall i, j | 0 <= i < j < |ws'| ensures ws'[i].cref != ws'[j].cref {
      assert ws'[i] == ws[if i < |kept| then i else i + 1] && ws'[j] == ws[if j < |kept| then j else j + 1];
    }
  }

  /** A list not holding the moved clause's old watch only sees the clause reordered behind a kept first literal. */
  lemma OtherList(ca: map<CRef, Clause>, p0: Lit, ws: seq<Watcher>, cr: CRef, d: Clause)
    requires ListOk(ca, p0, ws) && cr in ca && |ca[cr]| == |d| >= 2
    requires Lits(ca[cr]) == Lits(d) && d[0] == ca[cr][0] && p0 != ca[cr][1].Not()
    ensures ListOk(ca[cr := d], p0, ws)
  {
    forall i | 0 <= i < |ws| ensures WatcherOk(ca[cr := d], p0, ws[i]) {
      assert WatcherOk(ca, p0, ws[i]);
      assert ws[i].cref == cr ==> ws[i].blocker in Lits(d);
    }
  }

  /** Moving a watch to a literal that is not false keeps the propagation facts. */
  lemma MovePropagated(ca: map<CRef, Clause>, t: State, q: nat, p: Lit, w: Watcher, rest: seq<Watcher>, k: nat)
    requires Propagated(ca, t, q, p, [w] + rest)
    requires w.cref in ca && 2 <= k < |ca[w.cref]| && ca[w.cref][1] == p.Not() && !IsFalse(t, ca[w.cref][k])
    requires ca[w.cref][0] != p.Not()
    ensures Propagated(ca[w.cref := Swapped(ca[w.cref], 1, k)], t, q, p, rest)
  {
    var c := ca[w.cref];
    var d := Swapped(c, 1, k);
    var ca' := ca[w.cref := d];
    SwapReorders(c, 1, k);
    if WatchFine(t, c, c[0], q) { FineReordered(t, c, d, c[0], q); }
    forall cr, l | cr in ca' && |ca'[cr]| >= 2 && l in {ca'[cr][0], ca'[cr][1]}
      ensures Exempt(rest, cr, l, p) || WatchFine(t, ca'[cr], l, q)
    {
      if cr != w.cref && Exempt([w] + rest, cr, l, p) {
        var i :| 0 <= i < |[w] + rest| && ([w] + rest)[i].cref == cr;
        assert rest[i - 1].cref == cr;
      }
    }
  }

  // ----- starting on a literal, cleaning the lists -----

  lemma PropagatedDown(ca: map<CRef, Clause>, t: State, q: nat, q': nat)
    requires PropagatedTo(ca, t, q) && q' <= q
    ensures PropagatedTo(ca, t, q')
  {
  }

  /** Dequeuing `p` leaves exactly the clauses in its list to be looked at. */
  lemma StartLit(ca: map<CRef, Clause>, t: State, watches: Watches, n: nat, q: nat)
    requires WatchesOk(ca, watches, n) && PropagatedTo(ca, t, q) && Wf(t) && q < |t.trail| && n == |t.assigns|
    ensures t.trail[q] in watches && Propagated(ca, t, q + 1, t.trail[q], watches[t.trail[q]])
  {
    var p := t.trail[q];
    assert IsTrue(t, p);
    forall cr, l | cr in ca && |ca[cr]| >= 2 && l in {ca[cr][0], ca[cr][1]}
      ensures Exempt(watches[p], cr, l, p) || WatchFine(t, ca[cr], l, q + 1)
    {
      assert WatchFine(t, ca[cr], l, q);
      if IsFalse(t, l) { TrueFacts(t, l); }
    }
  }

  lemma CleanKeepsAll(ca: map<CRef, Clause>, ws: seq<Watcher>)
    requires forall i :: 0 <= i < |ws| ==> ws[i].cref in ca
    ensures Clean(ca, ws) == ws
  {
    if ws != [] { CleanKeepsAll(ca, ws[..|ws| - 1]); }
  }

  lemma CleanIsLazy(ca: map<CRef, Clause>, watches: Watches, n: nat)
    requires WatchesOk(ca, watches, n) && forall p :: p in watches ==> p.v < n
    ensures WatchesLazy(ca, watches, n)
  {
    forall p | p in watches ensures Clean(ca, watches[p]) == watches[p] {
      forall i | 0 <= i < |watches[p]| ensures watches[p][i].cref in ca {
        assert ListOk(ca, p, watches[p]) && WatcherOk(ca, p, watches[p][i]);
      }
      CleanKeepsAll(ca, watches[p]);
    }
    assert CleanAll(ca, watches) == watches;
  }

  lemma CleanRange(ca: map<CRef, Clause>, watches: Watches, n: nat)
    requires WatchesLazy(ca, watches, n)
    ensures WatchesOk(ca, CleanAll(ca, watches), n)
    ensures forall p :: p in CleanAll(ca, watches) ==> p.v < n
  {
  }
}
