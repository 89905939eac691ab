/** Garbage collection of clauses: every stored reference is moved to the same clause in a compact region. */
module GarbageCollection {
  import opened Cnf
  import opened ClauseMemory

  datatype Watcher = Watcher(cref: nat, blocker: Lit)

  /** The number of a literal. */
  function Index(l: Lit): nat {
    2 * l.v + if l.neg then 1 else 0
  }

  predicate Deleted(mem: Memory, w: Watcher) {
    Fits(mem, w.cref) && mem[w.cref].header.mark == 1
  }

  /** The watchers whose clause has not been removed. */
  function Kept(mem: Memory, ws: seq<Watcher>): seq<Watcher> {
    if ws == [] then [] else Kept(mem, ws[..|ws| - 1]) + if Deleted(mem, ws[|ws| - 1]) then [] else [ws[|ws| - 1]]
  }

  lemma {:induction false} KeptIn(mem: Memory, ws: seq<Watcher>)
    ensures forall w :: w in Kept(mem, ws) <==> w in ws && !Deleted(mem, w)
  {
    if ws != [] {
      KeptIn(mem, ws[..|ws| - 1]);
      assert ws == ws[..|ws| - 1] + [ws[|ws| - 1]];
    }
  }

  lemma {:induction false} KeptAll(mem: Memory, ws: seq<Watcher>)
    requires forall w :: w in ws ==> !Deleted(mem, w)
    ensures Kept(mem, ws) == ws
  {
    if ws != [] {
      var t := ws[..|ws| - 1];
      assert ws == t + [ws[|ws| - 1]];
      KeptAll(mem, t);
      assert !Deleted(mem, ws[|ws| - 1]);
    }
  }

  // ----- allocation -----

  class ClauseAllocator {
    var memory: Memory
    var wasted: nat
    var extraClauseField: bool

    constructor ()
      ensures memory == [] && wasted == 0 && !extraClauseField
    {
      memory, wasted, extraClauseField := [], 0, false;
    }

    /** Lays out a new clause at the end of the region; `u` stands for what its header happened to hold. */
    method Alloc(c: Clause, learnt: bool) returns (cr: nat, ghost u: nat)
      requires |c| >= 1
      modifies this`memory
      ensures cr == |old(memory)|
      ensures memory == old(memory) + Block(c, Fresh(|c|, learnt, learnt || extraClauseField, u), FreshExtra(c, learnt))
    {
      var useExtra := learnt || extraClauseField;
      // the constructor leaves this field of the header as it finds it
      var found: nat := *;
      u := found;
      cr := |memory|;
      memory := memory + Block(c, Fresh(|c|, learnt, useExtra, found), FreshExtra(c, learnt));
    }

    /** Moves a clause to another region, unless it has gone there already; either way returns where it is. */
    method Reloc(cr: nat, to: ClauseAllocator, ghost before: Memory, ghost refs: set<nat>, ghost f: map<nat, nat>)
      returns (r: nat, ghost g: map<nat, nat>)
      requires to != this && Moving(before, refs, memory, to.memory, f, to.extraClauseField) && cr in refs
      modifies this`memory, to`memory
      ensures Moving(before, refs, memory, to.memory, g, to.extraClauseField) && g == f[cr := r]
      ensures cr in f ==> r == f[cr]
    {
      hide Moving, IsClause, SameClause;
      MovedOrWhole(before, refs, memory, to.memory, f, cr, to.extraClauseField);
      g := f;
      if memory[cr].header.reloced {
        r := Data(memory, cr, 0).rel;
        assert f[cr := r] == f;
        return;
      }
      ghost var to0 := to.memory;
      ghost var now := memory;
      IsClauseSizes(memory, cr);
      var c, learnt := LitsAt(memory, cr), memory[cr].header.learnt;
      ghost var u;
      r, u := to.Alloc(c, learnt);
      memory := Forwarding(memory, cr, r);
      assert memory[cr].header == now[cr].header.(reloced := true);
      // the fields that follow are read from the clause that has just been left
      ghost var h := CopyRatings(cr, r, to, c, now, to0, Fresh(|c|, learnt, learnt || to.extraClauseField, u));
      g := f[cr := r];
      CopyIsSame(before, now, cr, to0, c, Fresh(|c|, learnt, learnt || to.extraClauseField, u), h.0, h.1, to.extraClauseField);
      MoveOne(before, refs, now, to0, f, cr, Block(c, h.0, h.1), to.extraClauseField);
    }

    /** The mark, and for learnt clauses what they were rated with, is copied; for others the abstraction is computed. */
    method CopyRatings(cr: nat, r: nat, to: ClauseAllocator, c: Clause, ghost now: Memory, ghost to0: Memory, ghost h0: Header)
      returns (ghost h: (Header, Word))
      requires to != this && IsClause(now, cr) && c == LitsAt(now, cr) && memory == Forwarding(now, cr, r) && r == |to0|
      requires h0.size == |c| && !h0.reloced && h0.learnt == now[cr].header.learnt && (h0.learnt ==> h0.hasExtra)
      requires to.memory == to0 + Block(c, h0, FreshExtra(c, h0.learnt))
      modifies to`memory
      ensures h.0.size == |c| && to.memory == to0 + Block(c, h.0, h.1)
      ensures h.0 == Copied(h0, now[cr].header)
      ensures h.1 == if now[cr].header.learnt then Extra(now, cr) else AbsWord(Abstraction(c))
    {
      BlockHead(to0, c, h0, FreshExtra(c, h0.learnt));
      ghost var h1 := h0.(mark := memory[cr].header.mark);
      SetHead(to0, c, h0, h1, FreshExtra(c, h0.learnt));
      to.memory := to.memory[r := Head(to.memory[r].header.(mark := memory[cr].header.mark))];
      h := (h1, FreshExtra(c, h0.learnt));
      BlockHead(to0, c, h1, h.1);
      if to.memory[r].header.learnt {
        var act := Data(memory, cr, memory[cr].header.size);
        assert act == Extra(now, cr);
        SetExtra(to0, c, h1, FreshExtra(c, h0.learnt), act);
        to.memory := to.memory[r + HEADER_WORDS + to.memory[r].header.size := act];
        BlockHead(to0, c, h1, act);
        ghost var h2 := Copied(h0, now[cr].header);
        SetHead(to0, c, h1, h2, act);
        var old1 := memory[cr].header;
        to.memory := to.memory[r := Head(to.memory[r].header.(lbd := old1.lbd, sizeWithoutSelectors := old1.sizeWithoutSelectors, canBeDel := old1.canBeDel))];
        h := (h2, act);
      } else if to.memory[r].header.hasExtra {
        SetExtra(to0, c, h1, h.1, AbsWord(Abstraction(c)));
        to.memory := to.memory[r + HEADER_WORDS + to.memory[r].header.size := AbsWord(Abstraction(c))];
      }
    }
  }

  /** The header of a new clause. */
  function Fresh(size: nat, learnt: bool, hasExtra: bool, u: nat): Header {
    Header(0, learnt, hasExtra, false, 0, true, size, u)
  }

  function FreshExtra(c: Clause, learnt: bool): Word {
    if learnt then ActWord(0.0) else AbsWord(Abstraction(c))
  }

  /** What relocation makes of a new header, from that of the clause left behind. */
  function Copied(h: Header, from: Header): Header {
    var marked := h.(mark := from.mark);
    if h.learnt then marked.(lbd := from.lbd, canBeDel := from.canBeDel, sizeWithoutSelectors := from.sizeWithoutSelectors) else marked
  }

  lemma IsClauseSizes(mem: Memory, r: nat)
    requires IsClause(mem, r)
    ensures Fits(mem, r) && mem[r].header.size >= 1
  {
  }

  lemma BlockHead(to0: Memory, c: Clause, h: Header, extra: Word)
    requires h.size == |c|
    ensures var m := to0 + Block(c, h, extra); |m| == |to0| + Words(h) && m[|to0|] == Head(h)
  {
  }

  lemma SetHead(to0: Memory, c: Clause, h: Header, h': Header, extra: Word)
    requires h.size == |c| == h'.size && h'.hasExtra == h.hasExtra
    ensures (to0 + Block(c, h, extra))[|to0| := Head(h')] == to0 + Block(c, h', extra)
  {
  }

  lemma SetExtra(to0: Memory, c: Clause, h: Header, extra: Word, extra': Word)
    requires h.size == |c| && h.hasExtra
    ensures (to0 + Block(c, h, extra))[|to0| + HEADER_WORDS + |c| := extra'] == to0 + Block(c, h, extra')
  {
  }

  /** The copied block is the same clause. */
  lemma CopyIsSame(before: Memory, now: Memory, cr: nat, to0: Memory, c: Clause, h0: Header, h: Header, extra: Word, abs: bool)
    requires (h0.hasExtra <==> h0.learnt || abs) && IsClause(before, cr) && IsClause(now, cr) && SameWords(before, now, cr) && c == LitsAt(now, cr) && h.size == |c|
    requires h0.size == |c| && !h0.reloced && h0.learnt == now[cr].header.learnt && (h0.learnt ==> h0.hasExtra) && h == Copied(h0, now[cr].header)
    requires extra == if now[cr].header.learnt then Extra(now, cr) else AbsWord(Abstraction(c))
    ensures SameClause(before, cr, to0 + Block(c, h, extra), |to0|, abs)
  {
    SameWordsClause(before, now, cr);
    BlockIsClause(to0, c, h, extra);
  }

  // ----- lists of watchers -----

  ghost predicate LazyLists(mem: Memory, occs: seq<seq<Watcher>>, dirty: seq<bool>) {
    forall i, w :: 0 <= i < |occs| && i < |dirty| && !dirty[i] && w in occs[i] ==> !Deleted(mem, w)
  }

  /** Watcher lists with lazy deletion: a list that may hold watchers of removed clauses is marked dirty. */
  class OccLists {
    var occs: seq<seq<Watcher>>
    var dirty: seq<bool>
    var dirties: seq<nat>

    constructor (n: nat)
      ensures Valid() && |occs| == n && (forall i :: 0 <= i < n ==> occs[i] == [])
    {
      occs, dirty, dirties := seq(n, i => []), seq(n, i => false), [];
    }

    /** Every dirty list is on record. */
    ghost predicate Valid()
      reads this
    {
      && |occs| == |dirty| && (forall i :: i in dirties ==> i < |dirty|)
      && forall i: nat :: i < |dirty| && dirty[i] ==> i in dirties
    }

    /** Clean lists hold no watcher of a removed clause. */
    ghost predicate Lazy(mem: Memory)
      reads this
    {
      LazyLists(mem, occs, dirty)
    }

    method Smudge(i: nat)
      requires Valid() && i < |dirty|
      modifies this`dirty, this`dirties
      ensures Valid() && dirty == old(dirty)[i := true]
    {
      if !dirty[i] {
        dirty := dirty[i := true];
        dirties := dirties + [i];
      }
    }

    /** Watches the first two literals of a clause. */
    method Attach(cr: nat, c: Clause)
      requires |c| >= 2 && Index(c[0].Not()) < |occs| && Index(c[1].Not()) < |occs|
      modifies this`occs
      ensures occs == AttachedTo(old(occs), cr, c)
    {
      occs := occs[Index(c[0].Not()) := occs[Index(c[0].Not())] + [Watcher(cr, c[1])]];
      occs := occs[Index(c[1].Not()) := occs[Index(c[1].Not())] + [Watcher(cr, c[0])]];
    }

    method Clean(i: nat, mem: Memory)
      requires |occs| == |dirty| && i < |occs|
      modifies this`occs, this`dirty
      ensures occs == old(occs)[i := Kept(mem, old(occs)[i])] && dirty == old(dirty)[i := false]
    {
      var ws := occs[i];
      ghost var was := ws;
      var k, j := 0, 0;
      while k < |ws|
        invariant 0 <= j <= k <= |ws| == |was| && ws[..j] == Kept(mem, was[..k]) && ws[k..] == was[k..]
      {
        assert was[..k + 1][..k] == was[..k];
        ghost var rest := ws[k..];
        assert ws[k] == rest[0] == was[k..][0] && was[k + 1..] == rest[1..];
        if !Deleted(mem, ws[k]) {
          ws := ws[j := ws[k]];
          j := j + 1;
        }
        assert ws[k + 1..] == rest[1..];
        k := k + 1;
      }
      assert was[..k] == was;
      occs := occs[i := ws[..j]];
      dirty := dirty[i := false];
    }

    /** Afterwards every list holds exactly its watchers of clauses that are still there. */
    method CleanAll(mem: Memory)
      requires Valid() && Lazy(mem)
      modifies this`occs, this`dirty, this`dirties
      ensures Valid() && |occs| == |old(occs)| && Lazy(mem)
      ensures forall i: nat :: i < |occs| ==> occs[i] == Kept(mem, old(occs)[i])
    {
      forall i: nat | i < |occs| && !dirty[i] ensures Kept(mem, occs[i]) == occs[i] { KeptAll(mem, occs[i]); }
      var k := 0;
      while k < |dirties|
        modifies this`occs, this`dirty
        invariant 0 <= k <= |dirties| && |occs| == |dirty| == |old(occs)|
        invariant forall i :: i in dirties ==> i < |dirty|
        invariant forall i: nat :: i < |dirty| && dirty[i] ==> i in dirties[k..] && occs[i] == old(occs)[i]
        invariant forall i: nat :: i < |dirty| && !dirty[i] ==> occs[i] == Kept(mem, old(occs)[i])
      {
        assert dirties[k] in dirties && dirties[k..] == [dirties[k]] + dirties[k + 1..];
        if dirty[dirties[k]] { Clean(dirties[k], mem); }
        k := k + 1;
      }
      dirties := [];
      forall i, w | 0 <= i < |occs| && w in occs[i] ensures !Deleted(mem, w) { KeptIn(mem, old(occs)[i]); }
    }
  }

  // ----- the solver's references -----

  /** Every reference of the list is the new one of the old. */
  ghost predicate Mapped(f: map<nat, nat>, was: seq<nat>, now: seq<nat>) {
    |now| == |was| && forall k :: 0 <= k < |was| ==> was[k] in f && now[k] == f[was[k]]
  }

  ghost predicate MappedWatchers(f: map<nat, nat>, was: seq<Watcher>, now: seq<Watcher>) {
    |now| == |was| && forall k :: 0 <= k < |was| ==> was[k].cref in f && now[k] == Watcher(f[was[k].cref], was[k].blocker)
  }

  /** The first `i` references are mapped by what `f` has been extended to for them, the others still to come. */
  ghost predicate MappedSofar(f: map<nat, nat>, g: map<nat, nat>, was: seq<nat>, now: seq<nat>, i: nat)
    requires i <= |was| == |now|
  {
    Extends(f, g) && Mapped(g, was[..i], now[..i]) && now[i..] == was[i..] && g.Keys == f.Keys + Elems(was[..i])
  }

  lemma MappedStart(f: map<nat, nat>, was: seq<nat>)
    ensures MappedSofar(f, f, was, was, 0)
  {
  }

  lemma ElemOf(was: seq<nat>, i: nat)
    requires i < |was|
    ensures was[i] in Elems(was)
  {
  }

  lemma MappedNext(f: map<nat, nat>, g0: map<nat, nat>, g: map<nat, nat>, was: seq<nat>, now: seq<nat>, i: nat, r: nat)
    requires i < |was| == |now| && MappedSofar(f, g0, was, now, i) && g == g0[was[i] := r] && (was[i] in g0 ==> r == g0[was[i]])
    ensures MappedSofar(f, g, was, now[i := r], i + 1)
  {
    var next := now[i := r];
    assert was[..i + 1] == was[..i] + [was[i]] && next[..i + 1] == now[..i] + [r];
    assert next[i + 1..] == now[i..][1..] == was[i..][1..] == was[i + 1..];
    assert Elems(was[..i + 1]) == Elems(was[..i]) + {was[i]};
  }

  ghost predicate WatchersSofar(f: map<nat, nat>, g: map<nat, nat>, was: seq<Watcher>, now: seq<Watcher>, i: nat)
    requires i <= |was| == |now|
  {
    Extends(f, g) && MappedWatchers(g, was[..i], now[..i]) && now[i..] == was[i..] && g.Keys == f.Keys + Crefs(was[..i])
  }

  lemma WatchersStart(f: map<nat, nat>, was: seq<Watcher>)
    ensures WatchersSofar(f, f, was, was, 0)
  {
  }

  lemma CrefOf(was: seq<Watcher>, i: nat)
    requires i < |was|
    ensures was[i].cref in Crefs(was)
  {
    assert was[i] in was;
  }

  lemma WatchersNext(f: map<nat, nat>, g0: map<nat, nat>, g: map<nat, nat>, was: seq<Watcher>, now: seq<Watcher>, i: nat, r: nat)
    requires i < |was| == |now| && WatchersSofar(f, g0, was, now, i) && g == g0[was[i].cref := r] && (was[i].cref in g0 ==> r == g0[was[i].cref])
    ensures WatchersSofar(f, g, was, now[i := Watcher(r, was[i].blocker)], i + 1)
  {
    hide Extends, MappedWatchers, Crefs;
    var w := Watcher(r, was[i].blocker);
    var next := now[i := w];
    ExtendsOne(f, g0, was[i].cref, r);
    StillMapped(g0, g, was[..i], now[..i]);
    MappedPush(g, was[..i], now[..i], was[i], w);
    assert was[..i + 1] == was[..i] + [was[i]] && next[..i + 1] == now[..i] + [w];
    assert next[i + 1..] == now[i..][1..] == was[i..][1..] == was[i + 1..];
    CrefsPush(was[..i], was[i]);
  }

  lemma ExtendsOne(f: map<nat, nat>, g0: map<nat, nat>, c: nat, r: nat)
    requires Extends(f, g0) && (c in g0 ==> r == g0[c])
    ensures Extends(g0, g0[c := r]) && Extends(f, g0[c := r])
  {
  }

  lemma MappedPush(g: map<nat, nat>, was: seq<Watcher>, now: seq<Watcher>, w: Watcher, w': Watcher)
    requires MappedWatchers(g, was, now) && w.cref in g && w' == Watcher(g[w.cref], w.blocker)
    ensures MappedWatchers(g, was + [w], now + [w'])
  {
  }

  lemma CrefsPush(ws: seq<Watcher>, w: Watcher)
    ensures Crefs(ws + [w]) == Crefs(ws) + {w.cref}
  {
  }

  ghost predicate Extends(f: map<nat, nat>, g: map<nat, nat>) {
    forall r :: r in f ==> r in g && g[r] == f[r]
  }

  ghost function Elems(s: seq<nat>): set<nat> {
    set r | r in s
  }

  ghost function Crefs(ws: seq<Watcher>): set<nat> {
    set w | w in ws :: w.cref
  }

  ghost function AllCrefs(occs: seq<seq<Watcher>>, n: nat): set<nat>
    requires n <= |occs|
  {
    if n == 0 then {} else AllCrefs(occs, n - 1) + Crefs(occs[n - 1])
  }

  lemma {:induction false} AllCrefsIs(occs: seq<seq<Watcher>>, n: nat)
    requires n <= |occs|
    ensures forall r :: r in AllCrefs(occs, n) <==> exists i: nat :: i < n && r in Crefs(occs[i])
  {
    if n > 0 { AllCrefsIs(occs, n - 1); }
  }

  /** The clause at `r` is the reason of `l`: `l` is its first literal, or the second of two. */
  ghost predicate IsReason(mem: Memory, r: nat, l: Lit) {
    IsClause(mem, r) && (LitAt(mem, r, 0) == l || (mem[r].header.size == 2 && LitAt(mem, r, 1) == l))
  }

  class ClauseStore {
    const ca: ClauseAllocator
    const watches: OccLists
    const watchesBin: OccLists
    var clauses: seq<nat>
    var learnts: seq<nat>
    var trail: seq<Lit>
    var reason: seq<Option<nat>>
    /** All clauses of the region, also the removed ones. */
    ghost var refs: set<nat>

    constructor (n: nat)
      ensures fresh(ca) && fresh(watches) && fresh(watchesBin) && Valid() && |reason| == n
      ensures clauses == learnts == [] && trail == []
    {
      ca := new ClauseAllocator();
      watches := new OccLists(2 * n);
      watchesBin := new OccLists(2 * n);
      clauses, learnts, trail, reason, refs := [], [], [], seq(n, v => None), {};
      new;
      assert Valid();
    }

    ghost predicate Valid()
      reads this, ca, watches, watchesBin
    {
      && watches != watchesBin && watches.Valid() && watchesBin.Valid()
      && |watches.occs| == |watchesBin.occs| == 2 * |reason|
      && Heap(ca.memory, refs) && Elems(clauses) <= refs && Elems(learnts) <= refs
      && WatchersOk(ca.memory, refs, watches.occs, false) && WatchersOk(ca.memory, refs, watchesBin.occs, true)
      && watches.Lazy(ca.memory) && watchesBin.Lazy(ca.memory)
      && ReasonsOk(ca.memory, refs, trail, reason)
    }

    /** Stores a clause and watches its first two literals. */
    method NewClause(c: Clause, learnt: bool) returns (cr: nat)
      requires Valid() && |c| >= 2 && forall l :: l in c ==> l.v < |reason|
      modifies this`clauses, this`learnts, this`refs, ca, watches, watchesBin
      ensures Valid() && cr !in old(refs) && refs == old(refs) + {cr} && IsClause(ca.memory, cr) && LitsAt(ca.memory, cr) == c
      ensures old(ca.memory) <= ca.memory && ca.extraClauseField == old(ca.extraClauseField) && ca.wasted == old(ca.wasted)
      ensures var h := ca.memory[cr].header; h.learnt == learnt && h.mark == 0 && (h.hasExtra <==> learnt || ca.extraClauseField)
      ensures if learnt then learnts == old(learnts) + [cr] && clauses == old(clauses) else clauses == old(clauses) + [cr] && learnts == old(learnts)
      ensures if |c| == 2 then watches.occs == old(watches.occs) && watchesBin.occs == AttachedTo(old(watchesBin.occs), cr, c)
              else watchesBin.occs == old(watchesBin.occs) && watches.occs == AttachedTo(old(watches.occs), cr, c)
    {
      hide Heap, WatchersOk, ReasonsOk, SameWords, IsClause, Fits, Fresh, FreshExtra, Block, Elems, Deleted, AttachedTo;
      ghost var before, u := ca.memory, 0;
      cr, u := ca.Alloc(c, learnt);
      ghost var h, e := Fresh(|c|, learnt, learnt || ca.extraClauseField, u), FreshExtra(c, learnt);
      FreshIs(c, learnt, learnt || ca.extraClauseField, u);
      StoreGrows(before, refs, c, h, e);
      GrownLists(before, refs, c, h, e, watches.occs, false);
      GrownLists(before, refs, c, h, e, watchesBin.occs, true);
      GrownReasons(before, refs, c, h, e, trail, reason);
      AttachClause(cr, c, refs + {cr});
      ElemsPush(learnts, cr);
      ElemsPush(clauses, cr);
      if learnt { learnts := learnts + [cr]; } else { clauses := clauses + [cr]; }
      refs := refs + {cr};
    }

    /** Watches the clause in the lists for its size. */
    method AttachClause(cr: nat, c: Clause, ghost all: set<nat>)
      requires watches != watchesBin && watches.Valid() && watchesBin.Valid() && |watches.occs| == |watchesBin.occs| == 2 * |reason|
      requires |c| >= 2 && (forall l :: l in c ==> l.v < |reason|) && cr in all
      requires IsClause(ca.memory, cr) && LitsAt(ca.memory, cr) == c && ca.memory[cr].header.mark != 1
      requires WatchersOk(ca.memory, all, watches.occs, false) && WatchersOk(ca.memory, all, watchesBin.occs, true)
      requires watches.Lazy(ca.memory) && watchesBin.Lazy(ca.memory)
      modifies watches`occs, watchesBin`occs
      ensures watches.Valid() && watchesBin.Valid() && |watches.occs| == |watchesBin.occs| == 2 * |reason|
      ensures WatchersOk(ca.memory, all, watches.occs, false) && WatchersOk(ca.memory, all, watchesBin.occs, true)
      ensures watches.Lazy(ca.memory) && watchesBin.Lazy(ca.memory)
      ensures if |c| == 2 then watches.occs == old(watches.occs) && watchesBin.occs == AttachedTo(old(watchesBin.occs), cr, c)
              else watchesBin.occs == old(watchesBin.occs) && watches.occs == AttachedTo(old(watches.occs), cr, c)
    {
      hide WatchersOk, IsClause, Deleted, AttachedTo;
      assert c[0] in c && c[1] in c;
      if |c| == 2 {
        Attached(ca.memory, all, watchesBin.occs, cr, c, true);
        watchesBin.Attach(cr, c);
      } else {
        Attached(ca.memory, all, watches.occs, cr, c, false);
        watches.Attach(cr, c);
      }
    }

    /** Marks a clause as removed; its watchers stay until the lists, now dirty, are cleaned. A locked clause gives up
        the reason of its first literal's variable, whether or not it is that reason itself: as the reason of the second
        of two literals it stays, and another clause is forgotten. */
    method RemoveClause(cr: nat)
      requires Valid() && cr in refs && IsClause(ca.memory, cr) && ca.memory[cr].header.size >= 2
      requires LitAt(ca.memory, cr, 0).v < |reason| && LitAt(ca.memory, cr, 1).v < |reason|
      modifies ca`memory, ca`wasted, watches`dirty, watches`dirties, watchesBin`dirty, watchesBin`dirties, this`reason
      ensures Valid() && ca.memory == Removed(old(ca.memory), cr)
      ensures ca.wasted == old(ca.wasted) + Words(old(ca.memory)[cr].header) && ca.extraClauseField == old(ca.extraClauseField)
      ensures reason == if old(Locked(cr)) then old(reason)[LitAt(old(ca.memory), cr, 0).v := None] else old(reason)
      ensures cr in ReasonRefs(trail, reason) <==> SecondReason(old(ca.memory), cr, trail, old(reason))
      ensures cr in Needed() <==> cr in ReasonRefs(trail, reason) + Elems(learnts) + Elems(clauses)
    {
      hide Heap, WatchersOk, ReasonsOk, LazyLists, Deleted, ReasonRefs;
      ghost var before, d0, b0 := ca.memory, watches.dirty, watchesBin.dirty;
      ReasonsRange(ca.memory, refs, trail, reason);
      var c0 := LitAt(ca.memory, cr, 0);
      SmudgeLists(cr);
      ReasonDropped(ca.memory, refs, trail, reason, c0.v);
      ReasonOfTwo(ca.memory, refs, trail, reason, cr);
      if Locked(cr) { reason := reason[c0.v := None]; }
      RemovedStore(before, refs, cr);
      StillLazy(before, refs, cr, watches.occs, d0, watches.dirty, false);
      StillLazy(before, refs, cr, watchesBin.occs, b0, watchesBin.dirty, true);
      RemovedReasons(before, refs, cr, trail, reason);
      ca.wasted := ca.wasted + Words(ca.memory[cr].header);
      ca.memory := Removed(ca.memory, cr);
      NotNeeded(cr);
    }

    /** Lazy detaching: the lists with watchers of the clause become dirty. */
    method SmudgeLists(cr: nat)
      requires Valid() && IsClause(ca.memory, cr) && ca.memory[cr].header.size >= 2
      requires LitAt(ca.memory, cr, 0).v < |reason| && LitAt(ca.memory, cr, 1).v < |reason|
      modifies watches`dirty, watches`dirties, watchesBin`dirty, watchesBin`dirties
      ensures watches.Valid() && watchesBin.Valid()
      ensures if ca.memory[cr].header.size == 2
              then watches.dirty == old(watches.dirty) && Smudged(ca.memory, cr, old(watchesBin.dirty), watchesBin.dirty)
              else watchesBin.dirty == old(watchesBin.dirty) && Smudged(ca.memory, cr, old(watches.dirty), watches.dirty)
    {
      hide Heap, WatchersOk, ReasonsOk, LazyLists;
      var c0, c1 := LitAt(ca.memory, cr, 0), LitAt(ca.memory, cr, 1);
      if ca.memory[cr].header.size == 2 {
        watchesBin.Smudge(Index(c0.Not()));
        watchesBin.Smudge(Index(c1.Not()));
      } else {
        watches.Smudge(Index(c0.Not()));
        watches.Smudge(Index(c1.Not()));
      }
    }

    /** A removed clause has no watcher to keep. */
    lemma NotNeeded(cr: nat)
      requires Fits(ca.memory, cr) && ca.memory[cr].header.mark == 1
      requires watches.Lazy(ca.memory)
      ensures cr in Needed() <==> cr in ReasonRefs(trail, reason) + Elems(learnts) + Elems(clauses)
    {
      var w, b := KeptLists(ca.memory, watches.occs), KeptLists(ca.memory, watchesBin.occs);
      AllCrefsIs(w, |w|);
      AllCrefsIs(b, |b|);
      forall i | 0 <= i < |w| ensures cr !in Crefs(w[i]) { KeptIn(ca.memory, watches.occs[i]); }
      forall i | 0 <= i < |b| ensures cr !in Crefs(b[i]) { KeptIn(ca.memory, watchesBin.occs[i]); }
    }

    /** The references of a list, one after the other. */
    method RelocRefs(was: seq<nat>, to: ClauseAllocator, ghost before: Memory, ghost f: map<nat, nat>)
      returns (now: seq<nat>, ghost g: map<nat, nat>)
      requires to != ca && Moving(before, refs, ca.memory, to.memory, f, to.extraClauseField) && Elems(was) <= refs
      modifies ca`memory, to`memory
      ensures Moving(before, refs, ca.memory, to.memory, g, to.extraClauseField) && Extends(f, g) && Mapped(g, was, now) && g.Keys == f.Keys + Elems(was)
    {
      hide Moving, Mapped, Extends, Elems;
      now, g := was, f;
      MappedStart(f, was);
      var i := 0;
      while i < |was|
        invariant 0 <= i <= |was| == |now| && Moving(before, refs, ca.memory, to.memory, g, to.extraClauseField) && MappedSofar(f, g, was, now, i)
      {
        ghost var g0, now0 := g, now;
        ElemOf(was, i);
        assert now[i] == was[i];
        var r;
        r, g := ca.Reloc(now[i], to, before, refs, g);
        now := now[i := r];
        MappedNext(f, g0, g, was, now0, i, r);
        i := i + 1;
      }
      assert was[..i] == was && now[..i] == now;
    }

    method RelocWatchers(was: seq<Watcher>, to: ClauseAllocator, ghost before: Memory, ghost f: map<nat, nat>)
      returns (now: seq<Watcher>, ghost g: map<nat, nat>)
      requires to != ca && Moving(before, refs, ca.memory, to.memory, f, to.extraClauseField) && Crefs(was) <= refs
      modifies ca`memory, to`memory
      ensures Moving(before, refs, ca.memory, to.memory, g, to.extraClauseField) && Extends(f, g) && MappedWatchers(g, was, now) && g.Keys == f.Keys + Crefs(was)
    {
      hide Moving, MappedWatchers, Extends, Crefs;
      now, g := was, f;
      WatchersStart(f, was);
      var i := 0;
      while i < |was|
        invariant 0 <= i <= |was| == |now| && Moving(before, refs, ca.memory, to.memory, g, to.extraClauseField) && WatchersSofar(f, g, was, now, i)
      {
        ghost var g0, now0 := g, now;
        CrefOf(was, i);
        assert now[i] == was[i];
        var r;
        r, g := ca.Reloc(now[i].cref, to, before, refs, g);
        now := now[i := now[i].(cref := r)];
        WatchersNext(f, g0, g, was, now0, i, r);
        i := i + 1;
      }
      assert was[..i] == was && now[..i] == now;
    }

    /** All watchers, literal by literal. */
    method RelocWatches(to: ClauseAllocator, ghost before: Memory)
      returns (ghost g: map<nat, nat>)
      requires to != ca && watches != watchesBin && |watches.occs| == |watchesBin.occs|
      requires Moving(before, refs, ca.memory, to.memory, map[], to.extraClauseField)
      requires forall i :: 0 <= i < |watches.occs| ==> Crefs(watches.occs[i]) <= refs && Crefs(watchesBin.occs[i]) <= refs
      modifies ca`memory, to`memory, watches`occs, watchesBin`occs
      ensures Moving(before, refs, ca.memory, to.memory, g, to.extraClauseField)
      ensures MappedLists(g, old(watches.occs), watches.occs) && MappedLists(g, old(watchesBin.occs), watchesBin.occs)
      ensures g.Keys == AllCrefs(old(watches.occs), |old(watches.occs)|) + AllCrefs(old(watchesBin.occs), |old(watchesBin.occs)|)
    {
      hide Moving, MappedWatchers, Extends, Crefs, ListsSofar, AllCrefs;
      ghost var w0, b0 := watches.occs, watchesBin.occs;
      g := map[];
      ListsStart(g, w0);
      ListsStart(g, b0);
      var i := 0;
      while i < |watches.occs|
        invariant 0 <= i <= |w0| == |b0| == |watches.occs| == |watchesBin.occs| && Moving(before, refs, ca.memory, to.memory, g, to.extraClauseField)
        invariant ListsSofar(g, w0, watches.occs, i) && ListsSofar(g, b0, watchesBin.occs, i)
        invariant g.Keys == AllCrefs(w0, i) + AllCrefs(b0, i)
      {
        ghost var g0, w, b := g, watches.occs, watchesBin.occs;
        ListsAt(g, w0, w, i);
        ListsAt(g, b0, b, i);
        var ws, ws2;
        ws, g := RelocWatchers(watches.occs[i], to, before, g);
        watches.occs := watches.occs[i := ws];
        ghost var g1 := g;
        ws2, g := RelocWatchers(watchesBin.occs[i], to, before, g);
        watchesBin.occs := watchesBin.occs[i := ws2];
        StillMapped(g1, g, w0[i], ws);
        ExtendsTrans(g0, g1, g);
        ListsNext(g0, g, w0, w, i, ws);
        ListsNext(g0, g, b0, b, i, ws2);
        AllCrefsNext(w0, i);
        AllCrefsNext(b0, i);
        i := i + 1;
      }
      ListsDone(g, w0, watches.occs);
      ListsDone(g, b0, watchesBin.occs);
    }

    /** The clause is the reason of its first literal, or of the second if it has two. */
    predicate Locked(r: nat)
      requires IsClause(ca.memory, r) && forall l :: l in trail ==> l.v < |reason|
      reads this, ca
    {
      var c0 := LitAt(ca.memory, r, 0);
      || (c0 in trail && reason[c0.v] == Some(r))
      || (ca.memory[r].header.size == 2 && LitAt(ca.memory, r, 1) in trail && reason[LitAt(ca.memory, r, 1).v] == Some(r))
    }

    /** One reason: of a clause that has not gone, the first literals tell whether it is still needed; they always do. */
    method RelocReason(l: Lit, to: ClauseAllocator, ghost before: Memory, ghost f: map<nat, nat>) returns (ghost g: map<nat, nat>)
      requires to != ca && Moving(before, refs, ca.memory, to.memory, f, to.extraClauseField) && l in trail && (forall q :: q in trail ==> q.v < |reason|)
      requires reason[l.v].Some? ==> reason[l.v].value in refs && IsReason(before, reason[l.v].value, l)
      modifies ca`memory, to`memory, this`reason
      ensures Moving(before, refs, ca.memory, to.memory, g, to.extraClauseField) && Extends(f, g)
      ensures |reason| == |old(reason)| && MappedReason(g, old(reason)[l.v], reason[l.v])
      ensures forall v :: 0 <= v < |reason| && v != l.v ==> reason[v] == old(reason)[v]
      ensures g.Keys == f.Keys + if old(reason)[l.v].Some? then {old(reason)[l.v].value} else {}
    {
      hide Moving, IsClause;
      g := f;
      if reason[l.v].Some? {
        var r := reason[l.v].value;
        MovedOrWhole(before, refs, ca.memory, to.memory, f, r, to.extraClauseField);
        if r !in f { StillLocked(before, r, l); }
        if ca.memory[r].header.reloced || Locked(r) {
          var r';
          r', g := ca.Reloc(r, to, before, refs, f);
          reason := reason[l.v := Some(r')];
        }
      }
    }

    lemma StillLocked(before: Memory, r: nat, l: Lit)
      requires IsClause(before, r) && IsClause(ca.memory, r) && LitsAt(ca.memory, r) == LitsAt(before, r) && IsReason(before, r, l)
      requires l in trail && (forall q :: q in trail ==> q.v < |reason|) && reason[l.v] == Some(r)
      ensures Locked(r)
    {
      assert LitAt(before, r, 0) == LitsAt(before, r)[0] && LitAt(ca.memory, r, 0) == LitsAt(ca.memory, r)[0];
      if before[r].header.size == 2 {
        assert LitAt(before, r, 1) == LitsAt(before, r)[1] && LitAt(ca.memory, r, 1) == LitsAt(ca.memory, r)[1];
      }
    }

    /** The reasons on the trail. */
    method RelocReasons(to: ClauseAllocator, ghost before: Memory, ghost f: map<nat, nat>) returns (ghost g: map<nat, nat>)
      requires to != ca && Moving(before, refs, ca.memory, to.memory, f, to.extraClauseField) && ReasonsOk(before, refs, trail, reason)
      modifies ca`memory, to`memory, this`reason
      ensures Moving(before, refs, ca.memory, to.memory, g, to.extraClauseField) && Extends(f, g)
      ensures MappedReasons(g, trail, old(reason), reason) && g.Keys == f.Keys + ReasonRefs(trail, old(reason))
    {
      hide Moving, ReasonsOk, ReasonsSofar, IsReason, Extends;
      ghost var was := reason;
      g := f;
      ReasonsStart(f, trail, reason);
      ReasonsRange(before, refs, trail, reason);
      var i := 0;
      while i < |trail|
        modifies ca`memory, to`memory, this`reason
        invariant 0 <= i <= |trail| && |reason| == |was| && Moving(before, refs, ca.memory, to.memory, g, to.extraClauseField)
        invariant ReasonsSofar(f, g, trail, was, reason, i)
      {
        var l := trail[i];
        assert l in trail;
        ReasonOf(before, refs, f, g, trail, was, reason, i);
        ghost var g0, now0 := g, reason;
        g := RelocReason(l, to, before, g);
        ReasonsNext(f, g0, g, trail, was, now0, reason, i);
        i := i + 1;
      }
      ReasonsDone(f, g, trail, was, reason);
    }

    /** The references something still needs: watchers of clauses not removed, reasons on the trail, learnt and problem clauses. */
    ghost function Needed(): set<nat>
      reads this, ca, watches, watchesBin
    {
      var w, b := KeptLists(ca.memory, watches.occs), KeptLists(ca.memory, watchesBin.occs);
      AllCrefs(w, |w|) + AllCrefs(b, |b|) + ReasonRefs(trail, reason) + Elems(learnts) + Elems(clauses)
    }

    /** Moves every clause that is still needed, and every reference with it. */
    method RelocAll(to: ClauseAllocator) returns (ghost f: map<nat, nat>)
      requires to != ca && Valid() && to.memory == []
      modifies ca`memory, to`memory, watches, watchesBin, this`reason, this`learnts, this`clauses
      ensures Moving(old(ca.memory), refs, ca.memory, to.memory, f, to.extraClauseField) && f.Keys == old(Needed())
      ensures watches.Valid() && watchesBin.Valid()
      ensures MappedLists(f, KeptLists(old(ca.memory), old(watches.occs)), watches.occs)
      ensures MappedLists(f, KeptLists(old(ca.memory), old(watchesBin.occs)), watchesBin.occs)
      ensures MappedReasons(f, trail, old(reason), reason)
      ensures Mapped(f, old(learnts), learnts) && Mapped(f, old(clauses), clauses)
    {
      hide Moving, MappedLists, Mapped, MappedReasons, Heap, ReasonsOk, WatchersOk, KeptLists, AllCrefs, ReasonRefs, Extends;
      ghost var before := ca.memory;
      NothingMoved(before, refs, to.extraClauseField);
      CleanLists();
      ghost var w, b := watches.occs, watchesBin.occs;
      f := RelocWatches(to, before);
      ghost var f1 := f;
      f := RelocReasons(to, before, f);
      ghost var f2 := f;
      learnts, f := RelocRefs(learnts, to, before, f);
      ghost var f3 := f;
      clauses, f := RelocRefs(clauses, to, before, f);
      MapsGrow(f1, f2, f3, f, w, watches.occs, trail, old(reason), reason, old(learnts), learnts);
      MapsGrow(f1, f2, f3, f, b, watchesBin.occs, trail, old(reason), reason, old(learnts), learnts);
    }

    /** The collection: a fresh region holds exactly the needed clauses, and every reference denotes the clause it did. */
    method GarbageCollect(extra: bool) returns (ghost f: map<nat, nat>)
      requires Valid()
      modifies this, ca, watches, watchesBin
      ensures Valid() && refs == f.Values && f.Keys == old(Needed()) && trail == old(trail)
      ensures forall r :: r in f ==> SameClause(old(ca.memory), r, ca.memory, f[r], extra)
      ensures ca.extraClauseField == extra && ca.wasted == 0
      ensures forall r, s :: r in f && s in f && f[r] == f[s] ==> r == s
      ensures MappedLists(f, KeptLists(old(ca.memory), old(watches.occs)), watches.occs)
      ensures MappedLists(f, KeptLists(old(ca.memory), old(watchesBin.occs)), watchesBin.occs)
      ensures MappedReasons(f, trail, old(reason), reason)
      ensures Mapped(f, old(learnts), learnts) && Mapped(f, old(clauses), clauses)
    {
      hide Moving, MappedLists, Mapped, MappedReasons, Heap, ReasonsOk, WatchersOk, KeptLists, Needed, SameClause, Elems;
      ghost var before, w, b := ca.memory, watches.occs, watchesBin.occs;
      var to := new ClauseAllocator();
      to.extraClauseField := extra;
      f := RelocAll(to);
      MovedHeap(before, refs, ca.memory, to.memory, f, to.extraClauseField);
      WatchersMoved(before, refs, ca.memory, to.memory, f, w, watches.occs, false, to.extraClauseField);
      WatchersMoved(before, refs, ca.memory, to.memory, f, b, watchesBin.occs, true, to.extraClauseField);
      ReasonsMoved(before, refs, ca.memory, to.memory, f, trail, old(reason), reason, to.extraClauseField);
      MappedInto(f, old(learnts), learnts);
      MappedInto(f, old(clauses), clauses);
      refs := f.Values;
      ca.memory, ca.extraClauseField, ca.wasted := to.memory, to.extraClauseField, 0;
    }

    /** Both kinds of lists lose the watchers of removed clauses. */
    method CleanLists()
      requires Valid()
      modifies watches, watchesBin
      ensures watches.Valid() && watchesBin.Valid()
      ensures watches.occs == KeptLists(ca.memory, old(watches.occs)) && watchesBin.occs == KeptLists(ca.memory, old(watchesBin.occs))
      ensures forall i :: 0 <= i < |watches.occs| ==> Crefs(watches.occs[i]) <= refs && Crefs(watchesBin.occs[i]) <= refs
    {
      hide Heap, ReasonsOk, WatchersOk;
      watches.CleanAll(ca.memory);
      watchesBin.CleanAll(ca.memory);
      assert watches.occs == KeptLists(ca.memory, old(watches.occs)) && watchesBin.occs == KeptLists(ca.memory, old(watchesBin.occs));
      KeptRefs(ca.memory, refs, old(watches.occs), false);
      KeptRefs(ca.memory, refs, old(watchesBin.occs), true);
    }
  }

  // ----- a removed clause that stays -----

  /** The trail of the example: z, not x, y. */
  function Chain(): seq<Lit> {
    [Lit(2, false), Lit(0, true), Lit(1, false)]
  }

  /** From z follows not x, and from that y. */
  function First(): Clause {
    [Lit(0, true), Lit(2, true)]
  }

  function Second(): Clause {
    [Lit(0, false), Lit(1, false)]
  }

  lemma ChainReasons(mem: Memory, refs: set<nat>, a: nat, b: nat)
    requires a in refs && b in refs && IsClause(mem, a) && IsClause(mem, b) && LitsAt(mem, a) == First() && LitsAt(mem, b) == Second()
    ensures ReasonsOk(mem, refs, Chain(), [Some(a), Some(b), None])
  {
    assert LitAt(mem, a, 0) == LitsAt(mem, a)[0] && LitAt(mem, b, 0) == LitsAt(mem, b)[0] && LitAt(mem, b, 1) == LitsAt(mem, b)[1];
    assert IsReason(mem, a, Lit(0, true)) && IsReason(mem, b, Lit(1, false));
  }

  /** The reason of not x, and the binary clause whose second literal it implies. */
  method ImplyTwice() returns (s: ClauseStore, a: nat, b: nat)
    ensures fresh(s) && fresh(s.ca) && fresh(s.watches) && fresh(s.watchesBin) && s.Valid() && a != b && a in s.refs && b in s.refs
    ensures IsClause(s.ca.memory, b) && LitsAt(s.ca.memory, b) == Second() && s.clauses == [a, b] && s.learnts == []
    ensures s.trail == Chain() && s.reason == [Some(a), Some(b), None]
  {
    hide WatchersOk, LazyLists, Fresh, FreshExtra, Block, Deleted, AttachedTo, IsClause, Apart;
    s := new ClauseStore(3);
    a := s.NewClause(First(), false);
    ghost var mem := s.ca.memory;
    b := s.NewClause(Second(), false);
    GrownClause(mem, s.ca.memory, a);
    ChainReasons(s.ca.memory, s.refs, a, b);
    s.trail, s.reason := Chain(), [Some(a), Some(b), None];
  }

  lemma GrownClause(mem: Memory, more: Memory, r: nat)
    requires IsClause(mem, r) && mem <= more
    ensures IsClause(more, r) && LitsAt(more, r) == LitsAt(mem, r)
  {
    assert forall k :: 0 <= k < |mem| ==> more[k] == mem[k];
    assert forall k: nat :: k < Words(mem[r].header) - HEADER_WORDS ==> Data(more, r, k) == Data(mem, r, k);
  }

  /** What is on record about the binary clause before and after it is marked. */
  lemma MarkedSecond(mem: Memory, refs: set<nat>, a: nat, b: nat)
    requires Heap(mem, refs) && b in refs && a != b && LitsAt(mem, b) == Second()
    ensures mem[b].header.size == 2 && LitAt(mem, b, 0) == Lit(0, false) && LitAt(mem, b, 1) == Lit(1, false)
    ensures SecondReason(mem, b, Chain(), [Some(a), Some(b), None])
    ensures var m := Removed(mem, b);
      && IsClause(m, b) && m[b].header.mark == 1 && m[b].header.size == 2 && LitsAt(m, b) == Second()
      && LitAt(m, b, 0) == Lit(0, false) && LitAt(m, b, 1) == Lit(1, false)
  {
    assert LitAt(mem, b, 0) == LitsAt(mem, b)[0] && LitAt(mem, b, 1) == LitsAt(mem, b)[1];
    assert Chain()[2] == Lit(1, false);
    RemovedClause(mem, refs, b, b);
    assert LitAt(Removed(mem, b), b, 0) == LitsAt(Removed(mem, b), b)[0] && LitAt(Removed(mem, b), b, 1) == LitsAt(Removed(mem, b), b)[1];
  }

  /** Removing the binary clause, and dropping it from the list of clauses: it remains the reason of y, so the next
      collection keeps it, while the reason of not x is lost. */
  method RemovedStays() returns (s: ClauseStore, a: nat, b: nat)
    ensures fresh(s) && s.Valid() && s.trail == Chain() && s.clauses == [a] && s.learnts == []
    ensures IsClause(s.ca.memory, b) && LitsAt(s.ca.memory, b) == Second() && s.ca.memory[b].header.mark == 1
    ensures s.reason == [None, Some(b), None] && s.Locked(b) && b in s.Needed() && a !in ReasonRefs(s.trail, s.reason)
  {
    hide WatchersOk, LazyLists, ReasonsOk, Heap, IsClause, Removed, SecondReason, Deleted, Kept, AllCrefs, KeptLists;
    s, a, b := ImplyTwice();
    ghost var was := s.ca.memory;
    MarkedSecond(was, s.refs, a, b);
    assert s.trail[2] == Lit(1, false);
    s.RemoveClause(b);
    s.clauses := [a];
  }

  // ----- storing and removing -----

  /** Appending a new clause leaves the others whole and apart. */
  lemma StoreGrows(mem: Memory, refs: set<nat>, c: Clause, h: Header, extra: Word)
    requires Heap(mem, refs) && h.size == |c| >= 1 && !h.reloced && (h.learnt ==> h.hasExtra)
    requires h.hasExtra ==> if h.learnt then extra.ActWord? else extra.AbsWord?
    ensures var m := mem + Block(c, h, extra);
      && Heap(m, refs + {|mem|}) && |mem| !in refs && IsClause(m, |mem|) && LitsAt(m, |mem|) == c && m[|mem|] == Head(h)
  {
    BlockIsClause(mem, c, h, extra);
    var m := mem + Block(c, h, extra);
    forall r | r in refs ensures IsClause(m, r) && End(m, r) <= |mem| && End(m, r) == End(mem, r) {
      AppendedClause(mem, r, Block(c, h, extra));
    }
    forall r, s | r in refs && s in refs && r != s ensures Apart(m, r, s) { assert Apart(mem, r, s); }
  }

  lemma AppendedClause(mem: Memory, r: nat, more: Memory)
    requires IsClause(mem, r)
    ensures var m := mem + more; IsClause(m, r) && LitsAt(m, r) == LitsAt(mem, r) && m[r] == mem[r] && End(m, r) == End(mem, r) <= |mem|
  {
    var m := mem + more;
    forall k: nat | k < Words(mem[r].header) - HEADER_WORDS ensures Data(m, r, k) == Data(mem, r, k) { }
    assert LitsAt(m, r) == LitsAt(mem, r);
  }

  lemma SameLits(a: Memory, b: Memory, r: nat, k: nat)
    requires IsClause(a, r) && IsClause(b, r) && LitsAt(a, r) == LitsAt(b, r) && k < a[r].header.size
    ensures b[r].header.size == a[r].header.size && LitAt(b, r, k) == LitAt(a, r, k)
  {
    assert |LitsAt(a, r)| == |LitsAt(b, r)| && LitAt(b, r, k) == LitsAt(b, r)[k] && LitAt(a, r, k) == LitsAt(a, r)[k];
  }

  /** What is known of each watcher depends only on its clause. */
  lemma WatcherKept(a: Memory, b: Memory, refs: set<nat>, refs': set<nat>, i: nat, w: Watcher, bin: bool)
    requires WatcherOk(a, refs, i, w, bin) && refs <= refs' && IsClause(b, w.cref) && LitsAt(a, w.cref) == LitsAt(b, w.cref)
    ensures WatcherOk(b, refs', i, w, bin)
  {
    SameLits(a, b, w.cref, 0);
    SameLits(a, b, w.cref, 1);
  }

  lemma ReasonKept(a: Memory, b: Memory, r: nat, l: Lit)
    requires IsReason(a, r, l) && IsClause(b, r) && LitsAt(a, r) == LitsAt(b, r)
    ensures IsReason(b, r, l)
  {
    SameLits(a, b, r, 0);
    if a[r].header.size == 2 { SameLits(a, b, r, 1); }
  }

  lemma GrownLists(mem: Memory, refs: set<nat>, c: Clause, h: Header, extra: Word, occs: seq<seq<Watcher>>, bin: bool)
    requires h.size == |c| && WatchersOk(mem, refs, occs, bin)
    ensures WatchersOk(mem + Block(c, h, extra), refs + {|mem|}, occs, bin)
    ensures forall i, w :: 0 <= i < |occs| && w in occs[i] ==> (Deleted(mem + Block(c, h, extra), w) <==> Deleted(mem, w))
  {
    forall i, w | 0 <= i < |occs| && w in occs[i]
      ensures WatcherOk(mem + Block(c, h, extra), refs + {|mem|}, i, w, bin) && (Deleted(mem + Block(c, h, extra), w) <==> Deleted(mem, w))
    {
      assert WatcherOk(mem, refs, i, w, bin);
      AppendedClause(mem, w.cref, Block(c, h, extra));
      WatcherKept(mem, mem + Block(c, h, extra), refs, refs + {|mem|}, i, w, bin);
    }
  }

  lemma GrownReasons(mem: Memory, refs: set<nat>, c: Clause, h: Header, extra: Word, trail: seq<Lit>, reason: seq<Option<nat>>)
    requires h.size == |c| && ReasonsOk(mem, refs, trail, reason)
    ensures ReasonsOk(mem + Block(c, h, extra), refs + {|mem|}, trail, reason)
  {
    forall l | l in trail && l.v < |reason| && reason[l.v].Some? ensures IsReason(mem + Block(c, h, extra), reason[l.v].value, l) {
      var r := reason[l.v].value;
      AppendedClause(mem, r, Block(c, h, extra));
      ReasonKept(mem, mem + Block(c, h, extra), r, l);
    }
  }

  /** Each of the first two literals gets a watcher, with the other as blocker. */
  function AttachedTo(occs: seq<seq<Watcher>>, cr: nat, c: Clause): (b: seq<seq<Watcher>>)
    requires |c| >= 2 && Index(c[0].Not()) < |occs| && Index(c[1].Not()) < |occs|
  {
    var a := occs[Index(c[0].Not()) := occs[Index(c[0].Not())] + [Watcher(cr, c[1])]];
    a[Index(c[1].Not()) := a[Index(c[1].Not())] + [Watcher(cr, c[0])]]
  }

  lemma FreshIs(c: Clause, learnt: bool, hasExtra: bool, u: nat)
    requires learnt ==> hasExtra
    ensures var h, e := Fresh(|c|, learnt, hasExtra, u), FreshExtra(c, learnt);
      && h.size == |c| && !h.reloced && h.mark == 0 && h.learnt == learnt && h.hasExtra == hasExtra && if learnt then e.ActWord? else e.AbsWord?
  {
  }

  lemma ElemsPush(s: seq<nat>, r: nat)
    ensures Elems(s + [r]) == Elems(s) + {r}
  {
  }

  lemma Attached(mem: Memory, refs: set<nat>, occs: seq<seq<Watcher>>, cr: nat, c: Clause, bin: bool)
    requires WatchersOk(mem, refs, occs, bin) && cr in refs && IsClause(mem, cr) && LitsAt(mem, cr) == c && |c| >= 2 && (bin <==> |c| == 2)
    requires mem[cr].header.mark != 1 && Index(c[0].Not()) < |occs| && Index(c[1].Not()) < |occs|
    ensures var b := AttachedTo(occs, cr, c);
      && |b| == |occs| && WatchersOk(mem, refs, b, bin)
      && forall i, w :: 0 <= i < |b| && w in b[i] ==> w in occs[i] || !Deleted(mem, w)
  {
    assert LitAt(mem, cr, 0) == LitsAt(mem, cr)[0] && LitAt(mem, cr, 1) == LitsAt(mem, cr)[1];
    var b := AttachedTo(occs, cr, c);
    forall i, w | 0 <= i < |b| && w in b[i] ensures WatcherOk(mem, refs, i, w, bin) && (w in occs[i] || !Deleted(mem, w)) {
      if w in occs[i] {
        assert WatcherOk(mem, refs, i, w, bin);
      } else {
        assert w.cref == cr && (i == Index(c[0].Not()) || i == Index(c[1].Not()));
      }
    }
  }

  /** The region with a clause marked as removed. */
  function Removed(mem: Memory, cr: nat): (m: Memory)
    requires Fits(mem, cr)
    ensures |m| == |mem|
  {
    mem[cr := Head(mem[cr].header.(mark := 1))]
  }

  lemma RemovedClause(mem: Memory, refs: set<nat>, cr: nat, r: nat)
    requires Heap(mem, refs) && cr in refs && r in refs
    ensures var m := Removed(mem, cr);
      && IsClause(m, r) && LitsAt(m, r) == LitsAt(mem, r) && End(m, r) == End(mem, r)
      && (m[r].header.mark == 1 <==> r == cr || mem[r].header.mark == 1)
  {
    var m := Removed(mem, cr);
    if r != cr {
      assert Apart(mem, r, cr);
      assert SameWords(mem, m, r);
      SameWordsClause(mem, m, r);
    } else {
      forall k: nat | k < Words(mem[r].header) - HEADER_WORDS ensures Data(m, r, k) == Data(mem, r, k) { }
      assert LitsAt(m, r) == LitsAt(mem, r);
    }
  }

  lemma RemovedStore(mem: Memory, refs: set<nat>, cr: nat)
    requires Heap(mem, refs) && cr in refs
    ensures Heap(Removed(mem, cr), refs)
  {
    forall r | r in refs ensures IsClause(Removed(mem, cr), r) && End(Removed(mem, cr), r) == End(mem, r) { RemovedClause(mem, refs, cr, r); }
    forall r, s | r in refs && s in refs && r != s ensures Apart(Removed(mem, cr), r, s) { assert Apart(mem, r, s); }
  }

  lemma RemovedLists(mem: Memory, refs: set<nat>, cr: nat, occs: seq<seq<Watcher>>, bin: bool)
    requires Heap(mem, refs) && cr in refs && Fits(mem, cr) && WatchersOk(mem, refs, occs, bin)
    ensures WatchersOk(Removed(mem, cr), refs, occs, bin)
    ensures forall i, w :: 0 <= i < |occs| && w in occs[i] ==> (Deleted(Removed(mem, cr), w) <==> Deleted(mem, w) || w.cref == cr)
    ensures forall i, w :: 0 <= i < |occs| && w in occs[i] && w.cref == cr ==> WatcherOk(mem, refs, i, w, bin)
  {
    hide Heap;
    forall i, w | 0 <= i < |occs| && w in occs[i]
      ensures WatcherOk(mem, refs, i, w, bin) && WatcherOk(Removed(mem, cr), refs, i, w, bin)
      ensures Deleted(Removed(mem, cr), w) <==> Deleted(mem, w) || w.cref == cr
    {
      assert WatcherOk(mem, refs, i, w, bin);
      RemovedClause(mem, refs, cr, w.cref);
      WatcherKept(mem, Removed(mem, cr), refs, refs, i, w, bin);
    }
  }

  ghost predicate Smudged(mem: Memory, cr: nat, was: seq<bool>, now: seq<bool>)
    requires IsClause(mem, cr) && mem[cr].header.size >= 2
  {
    && |now| == |was|
    && forall i :: 0 <= i < |now| ==>
      (now[i] <==> was[i] || i == Index(LitAt(mem, cr, 0).Not()) || i == Index(LitAt(mem, cr, 1).Not()))
  }

  /** With those lists dirty, removing the clause leaves no stale watcher in a clean one. */
  lemma StillLazy(mem: Memory, refs: set<nat>, cr: nat, occs: seq<seq<Watcher>>, was: seq<bool>, now: seq<bool>, bin: bool)
    requires Heap(mem, refs) && cr in refs && IsClause(mem, cr) && mem[cr].header.size >= 2 && WatchersOk(mem, refs, occs, bin)
    requires LazyLists(mem, occs, was) && |was| == |occs|
    requires if bin <==> mem[cr].header.size == 2 then Smudged(mem, cr, was, now) else now == was
    ensures WatchersOk(Removed(mem, cr), refs, occs, bin) && LazyLists(Removed(mem, cr), occs, now)
  {
    hide Heap, Deleted;
    RemovedLists(mem, refs, cr, occs, bin);
    forall i, w | 0 <= i < |occs| && i < |now| && !now[i] && w in occs[i] ensures !Deleted(Removed(mem, cr), w) {
      assert WatcherOk(mem, refs, i, w, bin);
    }
  }

  lemma ReasonsRange(mem: Memory, refs: set<nat>, trail: seq<Lit>, reason: seq<Option<nat>>)
    requires ReasonsOk(mem, refs, trail, reason)
    ensures forall l :: l in trail ==> l.v < |reason|
  {
  }

  lemma ReasonDropped(mem: Memory, refs: set<nat>, trail: seq<Lit>, reason: seq<Option<nat>>, v: nat)
    requires ReasonsOk(mem, refs, trail, reason) && v < |reason|
    ensures ReasonsOk(mem, refs, trail, reason[v := None])
  {
    forall l | l in trail && l.v < |reason| && reason[v := None][l.v].Some?
      ensures reason[l.v].value in refs && IsReason(mem, reason[l.v].value, l)
    {
      assert reason[l.v].Some?;
    }
  }

  /** The clause has two literals, over different variables, and is the reason of the second. */
  ghost predicate SecondReason(mem: Memory, r: nat, trail: seq<Lit>, reason: seq<Option<nat>>)
    requires IsClause(mem, r) && mem[r].header.size >= 2
  {
    var c0, c1 := LitAt(mem, r, 0), LitAt(mem, r, 1);
    mem[r].header.size == 2 && c1 in trail && c1.v < |reason| && c1.v != c0.v && reason[c1.v] == Some(r)
  }

  /** A clause is a reason exactly of its first literal, or of the second of two; without the first, the second remains. */
  lemma ReasonOfTwo(mem: Memory, refs: set<nat>, trail: seq<Lit>, reason: seq<Option<nat>>, r: nat)
    requires ReasonsOk(mem, refs, trail, reason) && IsClause(mem, r) && mem[r].header.size >= 2 && LitAt(mem, r, 0).v < |reason|
    ensures var c0, c1 := LitAt(mem, r, 0), LitAt(mem, r, 1);
      r in ReasonRefs(trail, reason) <==>
        (c0 in trail && reason[c0.v] == Some(r)) || (mem[r].header.size == 2 && c1 in trail && reason[c1.v] == Some(r))
    ensures r in ReasonRefs(trail, reason[LitAt(mem, r, 0).v := None]) <==> SecondReason(mem, r, trail, reason)
  {
    var c0, c1 := LitAt(mem, r, 0), LitAt(mem, r, 1);
    var dropped := reason[c0.v := None];
    forall l | l in trail && reason[l.v] == Some(r) ensures l == c0 || (mem[r].header.size == 2 && l == c1) {
      assert IsReason(mem, r, l);
    }
    assert r in ReasonRefs(trail, dropped) <==> exists l :: l in trail && dropped[l.v] == Some(r);
  }

  lemma RemovedReasons(mem: Memory, refs: set<nat>, cr: nat, trail: seq<Lit>, reason: seq<Option<nat>>)
    requires Heap(mem, refs) && cr in refs && ReasonsOk(mem, refs, trail, reason)
    ensures ReasonsOk(Removed(mem, cr), refs, trail, reason)
  {
    forall l | l in trail && l.v < |reason| && reason[l.v].Some? ensures IsReason(Removed(mem, cr), reason[l.v].value, l) {
      RemovedClause(mem, refs, cr, reason[l.v].value);
      ReasonKept(mem, Removed(mem, cr), reason[l.v].value, l);
    }
  }

  ghost predicate MappedLists(f: map<nat, nat>, was: seq<seq<Watcher>>, now: seq<seq<Watcher>>) {
    |now| == |was| && forall i :: 0 <= i < |was| ==> MappedWatchers(f, was[i], now[i])
  }

  ghost function KeptLists(mem: Memory, occs: seq<seq<Watcher>>): (r: seq<seq<Watcher>>)
    ensures |r| == |occs|
  {
    seq(|occs|, i requires 0 <= i < |occs| => Kept(mem, occs[i]))
  }

  lemma KeptRefs(mem: Memory, refs: set<nat>, occs: seq<seq<Watcher>>, bin: bool)
    requires WatchersOk(mem, refs, occs, bin)
    ensures forall i :: 0 <= i < |occs| ==> Crefs(KeptLists(mem, occs)[i]) <= refs
  {
    forall i | 0 <= i < |occs| ensures Crefs(KeptLists(mem, occs)[i]) <= refs {
      KeptIn(mem, occs[i]);
      forall w | w in Kept(mem, occs[i]) ensures w.cref in refs { assert WatcherOk(mem, refs, i, w, bin); }
    }
  }

  lemma ListsStillMapped(f: map<nat, nat>, g: map<nat, nat>, was: seq<seq<Watcher>>, now: seq<seq<Watcher>>)
    requires MappedLists(f, was, now) && Extends(f, g)
    ensures MappedLists(g, was, now)
  {
    hide MappedWatchers, Extends;
    forall i | 0 <= i < |was| ensures MappedWatchers(g, was[i], now[i]) { StillMapped(f, g, was[i], now[i]); }
  }

  lemma ExtendsTrans(f: map<nat, nat>, g: map<nat, nat>, h: map<nat, nat>)
    requires Extends(f, g) && Extends(g, h)
    ensures Extends(f, h)
  {
  }

  lemma AllCrefsNext(occs: seq<seq<Watcher>>, i: nat)
    requires i < |occs|
    ensures AllCrefs(occs, i + 1) == AllCrefs(occs, i) + Crefs(occs[i])
  {
  }

  /** The first `i` lists are mapped, the others as they were. */
  ghost predicate ListsSofar(g: map<nat, nat>, was: seq<seq<Watcher>>, now: seq<seq<Watcher>>, i: nat) {
    && i <= |was| == |now| && (forall k :: 0 <= k < i ==> MappedWatchers(g, was[k], now[k]))
    && forall k :: i <= k < |was| ==> now[k] == was[k]
  }

  lemma ListsStart(g: map<nat, nat>, was: seq<seq<Watcher>>)
    ensures ListsSofar(g, was, was, 0) && AllCrefs(was, 0) == {}
  {
  }

  lemma ListsAt(g: map<nat, nat>, was: seq<seq<Watcher>>, now: seq<seq<Watcher>>, i: nat)
    requires ListsSofar(g, was, now, i) && i < |was|
    ensures now[i] == was[i]
  {
  }

  lemma ListsNext(g0: map<nat, nat>, g: map<nat, nat>, was: seq<seq<Watcher>>, now: seq<seq<Watcher>>, i: nat, ws: seq<Watcher>)
    requires ListsSofar(g0, was, now, i) && i < |was| && Extends(g0, g) && MappedWatchers(g, was[i], ws)
    ensures ListsSofar(g, was, now[i := ws], i + 1)
  {
    hide MappedWatchers, Extends;
    forall k | 0 <= k < i ensures MappedWatchers(g, was[k], now[k]) { StillMapped(g0, g, was[k], now[k]); }
  }

  lemma ListsDone(g: map<nat, nat>, was: seq<seq<Watcher>>, now: seq<seq<Watcher>>)
    requires ListsSofar(g, was, now, |was|)
    ensures MappedLists(g, was, now)
  {
  }

  lemma MapsGrow(f1: map<nat, nat>, f2: map<nat, nat>, f3: map<nat, nat>, f: map<nat, nat>, w: seq<seq<Watcher>>, w': seq<seq<Watcher>>,
                 trail: seq<Lit>, reason: seq<Option<nat>>, reason': seq<Option<nat>>, learnts: seq<nat>, learnts': seq<nat>)
    requires Extends(f1, f2) && Extends(f2, f3) && Extends(f3, f)
    requires MappedLists(f1, w, w') && MappedReasons(f2, trail, reason, reason') && Mapped(f3, learnts, learnts')
    ensures MappedLists(f, w, w') && MappedReasons(f, trail, reason, reason') && Mapped(f, learnts, learnts')
  {
    assert Extends(f1, f) && Extends(f2, f);
    ListsStillMapped(f1, f, w, w');
  }

  lemma MovedHeap(before: Memory, refs: set<nat>, now: Memory, to: Memory, f: map<nat, nat>, abs: bool)
    requires Moving(before, refs, now, to, f, abs)
    ensures Heap(to, f.Values) && forall r, s :: r in f && s in f && f[r] == f[s] ==> r == s
    ensures forall r :: r in f ==> SameClause(before, r, to, f[r], abs)
  {
    forall r | r in f ensures IsClause(to, f[r]) { assert SameClause(before, r, to, f[r], abs); }
  }

  lemma SameAt(a: Memory, r: nat, b: Memory, s: nat, k: nat, abs: bool)
    requires SameClause(a, r, b, s, abs) && k < a[r].header.size
    ensures IsClause(b, s) && b[s].header.size == a[r].header.size && LitAt(b, s, k) == LitAt(a, r, k)
  {
    assert |LitsAt(a, r)| == |LitsAt(b, s)|;
    assert LitAt(b, s, k) == LitsAt(b, s)[k] && LitAt(a, r, k) == LitsAt(a, r)[k];
  }

  lemma WatchersMoved(before: Memory, refs: set<nat>, now: Memory, to: Memory, f: map<nat, nat>, was: seq<seq<Watcher>>, got: seq<seq<Watcher>>, bin: bool, abs: bool)
    requires Moving(before, refs, now, to, f, abs) && WatchersOk(before, refs, was, bin) && MappedLists(f, KeptLists(before, was), got)
    ensures |got| == |was| && WatchersOk(to, f.Values, got, bin) && forall i, w :: 0 <= i < |got| && w in got[i] ==> !Deleted(to, w)
  {
    hide Heap;
    forall i, w | 0 <= i < |got| && w in got[i] ensures WatcherOk(to, f.Values, i, w, bin) && !Deleted(to, w) {
      var k :| 0 <= k < |got[i]| && got[i][k] == w;
      var u := KeptLists(before, was)[i][k];
      assert MappedWatchers(f, KeptLists(before, was)[i], got[i]);
      KeptIn(before, was[i]);
      assert u in Kept(before, was[i]);
      assert WatcherOk(before, refs, i, u, bin);
      assert SameClause(before, u.cref, to, f[u.cref], abs);
      SameAt(before, u.cref, to, f[u.cref], 0, abs);
      SameAt(before, u.cref, to, f[u.cref], 1, abs);
    }
  }

  lemma ReasonsMoved(before: Memory, refs: set<nat>, now: Memory, to: Memory, f: map<nat, nat>, trail: seq<Lit>, was: seq<Option<nat>>, got: seq<Option<nat>>, abs: bool)
    requires Moving(before, refs, now, to, f, abs) && ReasonsOk(before, refs, trail, was) && MappedReasons(f, trail, was, got)
    ensures |got| == |was| && ReasonsOk(to, f.Values, trail, got)
  {
    hide Heap;
    forall l | l in trail && l.v < |got| && got[l.v].Some? ensures got[l.v].value in f.Values && IsReason(to, got[l.v].value, l) {
      assert MappedReason(f, was[l.v], got[l.v]);
      var r := was[l.v].value;
      assert SameClause(before, r, to, f[r], abs);
      SameAt(before, r, to, f[r], 0, abs);
      if before[r].header.size == 2 { SameAt(before, r, to, f[r], 1, abs); }
    }
  }

  lemma MappedInto(f: map<nat, nat>, was: seq<nat>, got: seq<nat>)
    requires Mapped(f, was, got)
    ensures Elems(got) <= f.Values
  {
  }

  lemma StillMapped(f: map<nat, nat>, g: map<nat, nat>, was: seq<Watcher>, now: seq<Watcher>)
    requires MappedWatchers(f, was, now) && Extends(f, g)
    ensures MappedWatchers(g, was, now)
  {
  }

  ghost predicate MappedReason(f: map<nat, nat>, was: Option<nat>, now: Option<nat>) {
    if was.Some? then was.value in f && now == Some(f[was.value]) else now == was
  }

  /** The reasons of the variables on the trail are mapped; the others, which nothing reads, are as they were. */
  ghost predicate MappedReasons(f: map<nat, nat>, trail: seq<Lit>, was: seq<Option<nat>>, now: seq<Option<nat>>) {
    && |now| == |was| && (forall l :: l in trail && l.v < |was| ==> MappedReason(f, was[l.v], now[l.v]))
    && forall v: nat :: v < |was| && (forall l :: l in trail ==> l.v != v) ==> now[v] == was[v]
  }

  /** The reasons of the first `i` literals of the trail are mapped, all others as they were. */
  ghost predicate ReasonsSofar(f: map<nat, nat>, g: map<nat, nat>, trail: seq<Lit>, was: seq<Option<nat>>, now: seq<Option<nat>>, i: nat) {
    && i <= |trail| && |now| == |was| && Extends(f, g) && g.Keys == f.Keys + ReasonRefs(trail[..i], was)
    && (forall k :: 0 <= k < i && trail[k].v < |was| ==> MappedReason(g, was[trail[k].v], now[trail[k].v]))
    && forall v: nat :: v < |was| && (forall k :: 0 <= k < i ==> trail[k].v != v) ==> now[v] == was[v]
  }

  lemma ReasonsStart(f: map<nat, nat>, trail: seq<Lit>, reason: seq<Option<nat>>)
    ensures ReasonsSofar(f, f, trail, reason, reason, 0)
  {
  }

  lemma ReasonOf(mem: Memory, refs: set<nat>, f: map<nat, nat>, g: map<nat, nat>, trail: seq<Lit>, was: seq<Option<nat>>, now: seq<Option<nat>>, i: nat)
    requires ReasonsOk(mem, refs, trail, was) && ReasonsSofar(f, g, trail, was, now, i) && i < |trail|
    ensures trail[i].v < |was| && now[trail[i].v] == was[trail[i].v]
    ensures was[trail[i].v].Some? ==> was[trail[i].v].value in refs && IsReason(mem, was[trail[i].v].value, trail[i])
    ensures forall k :: 0 <= k < i ==> trail[k].v != trail[i].v
  {
    assert trail[i] in trail;
  }

  lemma ReasonsNext(f: map<nat, nat>, g0: map<nat, nat>, g: map<nat, nat>, trail: seq<Lit>, was: seq<Option<nat>>,
                    now: seq<Option<nat>>, next: seq<Option<nat>>, i: nat)
    requires ReasonsSofar(f, g0, trail, was, now, i) && i < |trail| && trail[i].v < |was| && Extends(g0, g) && |next| == |now|
    requires now[trail[i].v] == was[trail[i].v] && MappedReason(g, was[trail[i].v], next[trail[i].v])
    requires forall v :: 0 <= v < |now| && v != trail[i].v ==> next[v] == now[v]
    requires g.Keys == g0.Keys + if was[trail[i].v].Some? then {was[trail[i].v].value} else {}
    requires forall k :: 0 <= k < i ==> trail[k].v != trail[i].v
    ensures ReasonsSofar(f, g, trail, was, next, i + 1)
  {
    hide MappedReason, Extends, ReasonRefs;
    assert trail[..i + 1] == trail[..i] + [trail[i]];
    ReasonRefsNext(trail[..i], trail[i], was);
    ExtendsTrans(f, g0, g);
    forall k | 0 <= k < i && trail[k].v < |was| ensures MappedReason(g, was[trail[k].v], next[trail[k].v]) {
      StillMappedReason(g0, g, was[trail[k].v], now[trail[k].v]);
    }
  }

  lemma StillMappedReason(f: map<nat, nat>, g: map<nat, nat>, was: Option<nat>, now: Option<nat>)
    requires MappedReason(f, was, now) && Extends(f, g)
    ensures MappedReason(g, was, now)
  {
  }

  lemma ReasonsDone(f: map<nat, nat>, g: map<nat, nat>, trail: seq<Lit>, was: seq<Option<nat>>, now: seq<Option<nat>>)
    requires ReasonsSofar(f, g, trail, was, now, |trail|)
    ensures Extends(f, g) && MappedReasons(g, trail, was, now) && g.Keys == f.Keys + ReasonRefs(trail, was)
  {
    assert trail[..|trail|] == trail;
  }

  ghost function ReasonRefs(trail: seq<Lit>, reason: seq<Option<nat>>): set<nat> {
    set l | l in trail && l.v < |reason| && reason[l.v].Some? :: reason[l.v].value
  }

  lemma ReasonRefsNext(trail: seq<Lit>, l: Lit, reason: seq<Option<nat>>)
    requires l.v < |reason|
    ensures ReasonRefs(trail + [l], reason) == ReasonRefs(trail, reason) + if reason[l.v].Some? then {reason[l.v].value} else {}
  {
  }

  /** Every watcher is in one of the two lists its clause belongs to, binary clauses apart from the others. */
  ghost predicate WatchersOk(mem: Memory, refs: set<nat>, occs: seq<seq<Watcher>>, bin: bool) {
    forall i, w :: 0 <= i < |occs| && w in occs[i] ==> WatcherOk(mem, refs, i, w, bin)
  }

  ghost predicate WatcherOk(mem: Memory, refs: set<nat>, i: nat, w: Watcher, bin: bool) {
    && w.cref in refs && IsClause(mem, w.cref) && mem[w.cref].header.size >= 2 && (bin <==> mem[w.cref].header.size == 2)
    && (i == Index(LitAt(mem, w.cref, 0).Not()) || i == Index(LitAt(mem, w.cref, 1).Not()))
  }

  /** The literals of the trail have different variables, and reasons that are theirs. */
  ghost predicate ReasonsOk(mem: Memory, refs: set<nat>, trail: seq<Lit>, reason: seq<Option<nat>>) {
    && DistinctVars(trail) && (forall l :: l in trail ==> l.v < |reason|)
    && forall l :: l in trail && l.v < |reason| && reason[l.v].Some? ==> reason[l.v].value in refs && IsReason(mem, reason[l.v].value, l)
  }
}
