/** Builds the encodings: reserves variables, pushes clauses, and reads the switches of a step. */
module EncodingBuilder {
  import opened Cnf
  import opened Argumentation
  import opened AttackStore
  import opened Encoding
  import opened EncodingModels

  lemma AllStep(names: seq<Arg>, f: Arg -> seq<Clause>, i: nat)
    requires i < |names|
    ensures All(names[..i + 1], f) == All(names[..i], f) + f(names[i])
  {
    assert names[..i + 1][..i] == names[..i];
  }

  // ----- changing attacks and their variables -----

  ghost predicate HasDyn(dyn: seq<DynVar>, p: Attack) {
    exists j :: 0 <= j < |dyn| && (dyn[j].from, dyn[j].to) == p
  }

  /** One entry for every attack changed by the first `i` changes. */
  ghost predicate Covers(dyn: seq<DynVar>, changes: seq<Change>, i: nat)
    requires i <= |changes|
  {
    && (forall p :: HasDyn(dyn, p) <==> ChangedBefore(changes, i, p))
    && (forall j, k :: 0 <= j < k < |dyn| ==> (dyn[j].from, dyn[j].to) != (dyn[k].from, dyn[k].to))
  }

  lemma CoversMore(dyn: seq<DynVar>, changes: seq<Change>, i: nat, d: DynVar)
    requires i < |changes| && Covers(dyn, changes, i) && (d.from, d.to) == changes[i].Pair()
    requires !HasDyn(dyn, changes[i].Pair())
    ensures Covers(dyn + [d], changes, i + 1)
  {
    var dyn' := dyn + [d];
    forall p ensures HasDyn(dyn', p) <==> ChangedBefore(changes, i + 1, p) {
      assert HasDyn(dyn, p) <==> ChangedBefore(changes, i, p);
      HasDynMore(dyn, d, p);
      ChangedMore(changes, i, p);
    }
  }

  lemma HasDynMore(dyn: seq<DynVar>, d: DynVar, p: Attack)
    ensures HasDyn(dyn + [d], p) <==> HasDyn(dyn, p) || p == (d.from, d.to)
  {
    var dyn' := dyn + [d];
    if HasDyn(dyn, p) {
      var j :| 0 <= j < |dyn| && (dyn[j].from, dyn[j].to) == p;
      assert dyn'[j] == dyn[j];
    }
    assert dyn'[|dyn|] == d;
  }

  lemma ChangedMore(changes: seq<Change>, i: nat, p: Attack)
    requires i < |changes|
    ensures ChangedBefore(changes, i + 1, p) <==> ChangedBefore(changes, i, p) || p == changes[i].Pair()
  {
  }

  lemma CoversSame(dyn: seq<DynVar>, changes: seq<Change>, i: nat)
    requires i < |changes| && Covers(dyn, changes, i) && HasDyn(dyn, changes[i].Pair())
    ensures Covers(dyn, changes, i + 1)
  {
    forall p ensures HasDyn(dyn, p) <==> ChangedBefore(changes, i + 1, p) { ChangedMore(changes, i, p); }
  }

  /** The attacks of every step keep what has no switch. */
  lemma ReplaySelects(e: Enc, changes: seq<Change>, initial: set<Attack>, k: nat)
    requires k <= |changes| && Covers(e.dyn, changes, |changes|) && Recorded(e.attacks, changes, initial)
    ensures Selects(e, Replay(initial, changes, k))
  {
    var r := Replay(initial, changes, k);
    ReplayWithin(initial, changes, k);
    forall p | p in Pairs(e.attacks) && Find(e.dyn, p.0, p.1).None? ensures p in r {
      FindMeans(e.dyn, p.0, p.1);
      assert !HasDyn(e.dyn, p);
      assert !ChangedBefore(changes, |changes|, p);
      ReplayUnchanged(initial, changes, k, p);
    }
  }

  /** The variables for a changing attack extend the owners. */
  ghost function DynOwners(k: nat, reserve: bool): seq<Owner> {
    [OfRepl(k)] + (if reserve then [OfNotAttacked(k)] else []) + [OfSwitch(k)]
  }

  lemma ArgsMore(e: Enc, e': Enc, owner: seq<Owner>, more: seq<Owner>)
    requires ArgsOwned(e, owner) && e'.names == e.names && e'.varOf == e.varOf && OfArg !in more
    ensures ArgsOwned(e', owner + more)
  {
    var owner' := owner + more;
    assert forall a :: e'.X(a) == e.X(a);
    forall v | 0 <= v < |owner'| && owner'[v] == OfArg ensures exists a :: a in e'.names && e'.X(a) == v {
      assert v < |owner| by { assert forall k :: 0 <= k < |more| ==> owner'[|owner| + k] == more[k] && more[k] in more; }
      var a :| a in e.names && e.X(a) == v;
      assert e'.X(a) == v;
    }
  }

  lemma DisjMore(e: Enc, e': Enc, owner: seq<Owner>, more: seq<Owner>)
    requires DisjOwned(e, owner) && e'.names == e.names && e'.disj == e.disj && forall o :: o in more ==> !o.OfDisj?
    ensures DisjOwned(e', owner + more)
  {
    var owner' := owner + more;
    assert forall a :: e'.P(a) == e.P(a);
    forall v | 0 <= v < |owner'| && owner'[v].OfDisj? ensures owner'[v].a in e'.names && e'.P(owner'[v].a) == v {
      assert v < |owner| by { assert forall k :: 0 <= k < |more| ==> owner'[|owner| + k] == more[k] && more[k] in more; }
    }
  }

  lemma DynMore(e: Enc, owner: seq<Owner>, d: DynVar, reserve: bool)
    requires DynOwned(e, owner, reserve)
    requires d.fromRepl == |owner| && d.assump == |owner| + 1 + (if reserve then 1 else 0)
    requires reserve ==> d.notAttackedRepl == |owner| + 1
    ensures DynOwned(e.(dyn := e.dyn + [d]), owner + DynOwners(|e.dyn|, reserve), reserve)
  {
    var n := |e.dyn|;
    var e', owner' := e.(dyn := e.dyn + [d]), owner + DynOwners(n, reserve);
    assert |owner'| == d.assump + 1;
    forall v | 0 <= v < |owner'| ensures owner'[v] == if v < |owner| then owner[v] else if v == |owner| then OfRepl(n) else if v == d.assump then OfSwitch(n) else OfNotAttacked(n) { }
    forall k | 0 <= k <= n ensures e'.dyn[k] == if k < n then e.dyn[k] else d { }
    forall k | 0 <= k <= n
      ensures e'.dyn[k].fromRepl < |owner'| && owner'[e'.dyn[k].fromRepl] == OfRepl(k)
      ensures e'.dyn[k].assump < |owner'| && owner'[e'.dyn[k].assump] == OfSwitch(k)
      ensures reserve ==> e'.dyn[k].notAttackedRepl < |owner'| && owner'[e'.dyn[k].notAttackedRepl] == OfNotAttacked(k)
    {
    }
    forall v | 0 <= v < |owner'| && owner'[v].OfRepl? ensures owner'[v].k < |e'.dyn| && e'.dyn[owner'[v].k].fromRepl == v { }
    forall v | 0 <= v < |owner'| && owner'[v].OfSwitch? ensures owner'[v].k < |e'.dyn| && e'.dyn[owner'[v].k].assump == v { }
    forall v | 0 <= v < |owner'| && owner'[v].OfNotAttacked? ensures reserve && owner'[v].k < |e'.dyn| && e'.dyn[owner'[v].k].notAttackedRepl == v { }
  }

  lemma OwnMore(e: Enc, owner: seq<Owner>, d: DynVar, reserve: bool)
    requires AllOwned(e, owner, reserve)
    requires d.fromRepl == |owner| && d.assump == |owner| + 1 + (if reserve then 1 else 0)
    requires reserve ==> d.notAttackedRepl == |owner| + 1
    ensures AllOwned(e.(dyn := e.dyn + [d]), owner + DynOwners(|e.dyn|, reserve), reserve)
  {
    hide ArgsOwned, DisjOwned, DynOwned;
    var e', more := e.(dyn := e.dyn + [d]), DynOwners(|e.dyn|, reserve);
    ArgsMore(e, e', owner, more);
    DynMore(e, owner, d, reserve);
    if reserve { DisjMore(e, e', owner, more); }
  }

  /** The variables so far are those of the arguments, and one telling that `b` is attacked for each `b` in `done`. */
  ghost predicate DisjReserved(e: Enc, owner: seq<Owner>, done: seq<Arg>) {
    && ArgsOwned(e, owner) && e.dyn == [] && (forall b :: b in e.disj <==> b in done)
    && (forall v :: 0 <= v < |owner| ==> owner[v] == OfArg || (owner[v].OfDisj? && owner[v].a in e.disj && e.disj[owner[v].a] == v))
    && forall b :: b in e.disj ==> e.disj[b] < |owner| && owner[e.disj[b]] == OfDisj(b)
  }

  lemma OwnDisj(e: Enc, owner: seq<Owner>, done: seq<Arg>, a: Arg)
    requires DisjReserved(e, owner, done) && a !in done
    ensures DisjReserved(e.(disj := e.disj[a := |owner|]), owner + [OfDisj(a)], done + [a])
  {
    var e', owner' := e.(disj := e.disj[a := |owner|]), owner + [OfDisj(a)];
    assert forall v :: 0 <= v < |owner| ==> owner'[v] == owner[v];
    assert ArgsOwned(e', owner') by { ArgsOwnedMore(e, owner, a); }
  }

  lemma ArgsOwnedMore(e: Enc, owner: seq<Owner>, a: Arg)
    requires ArgsOwned(e, owner)
    ensures ArgsOwned(e.(disj := e.disj[a := |owner|]), owner + [OfDisj(a)])
  {
    var e', owner' := e.(disj := e.disj[a := |owner|]), owner + [OfDisj(a)];
    assert forall b :: e'.X(b) == e.X(b);
    forall v | 0 <= v < |owner'| && owner'[v] == OfArg ensures exists b :: b in e'.names && e'.X(b) == v {
      assert owner[v] == OfArg;
      var b :| b in e.names && e.X(b) == v;
      assert e'.X(b) == v;
    }
  }

  lemma {:induction false} DynClausesDependOn(e: Enc, e': Enc, dyn: seq<DynVar>, reserve: bool)
    requires e.varOf == e'.varOf && e.disj == e'.disj
    ensures AllDyn(e, dyn, reserve) == AllDyn(e', dyn, reserve)
  {
    if dyn != [] { DynClausesDependOn(e, e', dyn[..|dyn| - 1], reserve); }
  }

  // ----- the switches of a step -----

  function SwitchLit(d: DynVar, on: bool): Lit {
    Lit(d.assump, !on)
  }

  function PairOf(d: DynVar): Attack {
    (d.from, d.to)
  }

  ghost predicate IsSwitch(dyn: seq<DynVar>, changes: seq<Change>, i: nat, r: set<Attack>, l: Lit)
    requires i <= |changes|
  {
    exists j :: 0 <= j < |dyn| && l == SwitchLit(dyn[j], PairOf(dyn[j]) in r) && ChangedBefore(changes, i, PairOf(dyn[j]))
  }

  /** `out` has one literal for each attack among the first `i` changes, positive when `r` has the attack. */
  ghost predicate Listed(dyn: seq<DynVar>, changes: seq<Change>, i: nat, r: set<Attack>, out: seq<Lit>)
    requires i <= |changes|
  {
    && (forall x :: 0 <= x < |out| ==> IsSwitch(dyn, changes, i, r, out[x]))
    && (forall j :: 0 <= j < |dyn| && ChangedBefore(changes, i, PairOf(dyn[j])) ==> SwitchLit(dyn[j], PairOf(dyn[j]) in r) in out)
    && (forall x, y :: 0 <= x < y < |out| ==> out[x].v != out[y].v)
  }

  predicate DistinctSwitches(dyn: seq<DynVar>) {
    && (forall j, k :: 0 <= j < k < |dyn| ==> dyn[j].assump != dyn[k].assump)
    && (forall j, k :: 0 <= j < k < |dyn| ==> PairOf(dyn[j]) != PairOf(dyn[k]))
  }

  /** `out'` is `out` with literal `l` in place of the one over its variable, or added when there is none. */
  ghost predicate Put(out: seq<Lit>, out': seq<Lit>, l: Lit) {
    || (exists x :: 0 <= x < |out| && out[x].v == l.v && out' == out[x := l])
    || ((forall x :: 0 <= x < |out| ==> out[x].v != l.v) && out' == out + [l])
  }

  lemma ListedNext(dyn: seq<DynVar>, changes: seq<Change>, i: nat, r: set<Attack>, r': set<Attack>, out: seq<Lit>, out': seq<Lit>, j: nat)
    requires i < |changes| && Listed(dyn, changes, i, r, out) && DistinctSwitches(dyn)
    requires j < |dyn| && PairOf(dyn[j]) == changes[i].Pair() && forall p :: p != PairOf(dyn[j]) ==> (p in r <==> p in r')
    requires Put(out, out', SwitchLit(dyn[j], PairOf(dyn[j]) in r'))
    ensures Listed(dyn, changes, i + 1, r', out')
  {
    hide IsSwitch;
    var l := SwitchLit(dyn[j], PairOf(dyn[j]) in r');
    forall p ensures ChangedBefore(changes, i + 1, p) <==> ChangedBefore(changes, i, p) || p == PairOf(dyn[j]) { ChangedMore(changes, i, p); }
    assert IsSwitch(dyn, changes, i + 1, r', l) by { IsSwitchAt(dyn, changes, i + 1, r', j); }
    forall x | 0 <= x < |out'| ensures IsSwitch(dyn, changes, i + 1, r', out'[x]) {
      if out'[x] != l {
        assert out'[x] == out[x] && out[x].v != l.v;
        IsSwitchNext(dyn, changes, i, r, r', out[x], j);
      }
    }
    PutHas(out, out', l);
    forall k | 0 <= k < |dyn| && ChangedBefore(changes, i + 1, PairOf(dyn[k]))
      ensures SwitchLit(dyn[k], PairOf(dyn[k]) in r') in out'
    {
      if k != j {
        assert PairOf(dyn[k]) != PairOf(dyn[j]) && dyn[k].assump != dyn[j].assump;
        assert SwitchLit(dyn[k], PairOf(dyn[k]) in r) in out;
      }
    }
  }

  lemma IsSwitchAt(dyn: seq<DynVar>, changes: seq<Change>, i: nat, r: set<Attack>, j: nat)
    requires i <= |changes| && j < |dyn| && ChangedBefore(changes, i, PairOf(dyn[j]))
    ensures IsSwitch(dyn, changes, i, r, SwitchLit(dyn[j], PairOf(dyn[j]) in r))
  {
  }

  lemma IsSwitchNext(dyn: seq<DynVar>, changes: seq<Change>, i: nat, r: set<Attack>, r': set<Attack>, q: Lit, j: nat)
    requires i < |changes| && IsSwitch(dyn, changes, i, r, q) && j < |dyn| && q.v != dyn[j].assump
    requires PairOf(dyn[j]) == changes[i].Pair() && forall p :: p != PairOf(dyn[j]) ==> (p in r <==> p in r')
    requires DistinctSwitches(dyn)
    ensures IsSwitch(dyn, changes, i + 1, r', q)
  {
    var k :| 0 <= k < |dyn| && q == SwitchLit(dyn[k], PairOf(dyn[k]) in r) && ChangedBefore(changes, i, PairOf(dyn[k]));
    ChangedMore(changes, i, PairOf(dyn[k]));
    assert q == SwitchLit(dyn[k], PairOf(dyn[k]) in r');
  }

  lemma PutHas(out: seq<Lit>, out': seq<Lit>, l: Lit)
    requires Put(out, out', l)
    ensures l in out' && forall q :: q in out && q.v != l.v ==> q in out'
  {
    if x :| 0 <= x < |out| && out[x].v == l.v && out' == out[x := l] {
      assert out'[x] == l;
      forall q | q in out && q.v != l.v ensures q in out' {
        var y :| 0 <= y < |out| && out[y] == q;
        assert out'[y] == q;
      }
    } else {
      assert out'[|out|] == l;
    }
  }

  /** The literal over the variable of a listed attack is the listed one. */
  lemma ListedSame(dyn: seq<DynVar>, changes: seq<Change>, i: nat, r: set<Attack>, out: seq<Lit>, x: nat, j: nat)
    requires i <= |changes| && Listed(dyn, changes, i, r, out) && DistinctSwitches(dyn)
    requires x < |out| && j < |dyn| && out[x].v == dyn[j].assump
    ensures out[x] == SwitchLit(dyn[j], PairOf(dyn[j]) in r)
  {
    assert IsSwitch(dyn, changes, i, r, out[x]);
    var k :| 0 <= k < |dyn| && out[x] == SwitchLit(dyn[k], PairOf(dyn[k]) in r) && ChangedBefore(changes, i, PairOf(dyn[k]));
    assert dyn[k].assump == dyn[j].assump;
  }

  /** An attack not listed has not changed before, so its initial state is its present one. */
  lemma NotListed(dyn: seq<DynVar>, initial: set<Attack>, changes: seq<Change>, s: nat, i: nat, j: nat, out: seq<Lit>)
    requires s <= i < |changes| && j < |dyn| && PairOf(dyn[j]) == changes[i].Pair()
    requires Listed(dyn, changes, i, Replay(initial, changes, s), out) && forall x :: 0 <= x < |out| ==> out[x].v != dyn[j].assump
    ensures PairOf(dyn[j]) in Replay(initial, changes, s) <==> PairOf(dyn[j]) in initial
  {
    var r, p := Replay(initial, changes, s), PairOf(dyn[j]);
    assert SwitchLit(dyn[j], p in r) !in out;
    assert !ChangedBefore(changes, i, p);
    ReplayUnchanged(initial, changes, s, p);
  }

  lemma ListedSwitched(e: Enc, changes: seq<Change>, r: set<Attack>, out: seq<Lit>, m: Assignment)
    requires Covers(e.dyn, changes, |changes|) && Listed(e.dyn, changes, |changes|, r, out)
    ensures TrueAll(m, out) <==> Switched(e, m, r)
  {
    if TrueAll(m, out) {
      forall d | d in e.dyn ensures m(d.assump) <==> PairOf(d) in r {
        var j :| 0 <= j < |e.dyn| && e.dyn[j] == d;
        assert HasDyn(e.dyn, PairOf(d));
        assert SwitchLit(d, PairOf(d) in r) in out;
      }
    }
    if Switched(e, m, r) {
      forall l | l in out ensures True(m, l) {
        var x :| 0 <= x < |out| && out[x] == l;
        assert IsSwitch(e.dyn, changes, |changes|, r, out[x]);
      }
    }
  }

  lemma OwnedDistinct(e: Enc, owner: seq<Owner>, changes: seq<Change>, reserve: bool)
    requires DynOwned(e, owner, reserve) && Covers(e.dyn, changes, |changes|)
    ensures DistinctSwitches(e.dyn)
  {
    forall j, k | 0 <= j < k < |e.dyn| ensures e.dyn[j].assump != e.dyn[k].assump {
      assert owner[e.dyn[j].assump] == OfSwitch(j) && owner[e.dyn[k].assump] == OfSwitch(k);
    }
  }

  // ----- soft clauses -----

  function ExtensionSofts(n: nat): seq<Clause> {
    seq(n, v requires 0 <= v < n => [Pos(v)])
  }

  function RangeSofts(e: Enc): seq<Clause> {
    seq(|e.names|, i requires 0 <= i < |e.names| => [Pos(e.X(e.names[i])), Pos(e.P(e.names[i]))])
  }

  // ----- the builder -----

  class SatEncodingHelper {
    const names: seq<Arg>
    const varOf: map<Arg, nat>
    const attacks: Attacks
    var nbVars: nat
    /** The clauses handed to the solver. */
    var clauses: seq<Clause>
    var softs: seq<Clause>
    var disjunctionVars: map<Arg, nat>
    var dynVars: seq<DynVar>
    ghost var owner: seq<Owner>

    constructor (names: seq<Arg>, varOf: map<Arg, nat>, nVars: nat, attacks: Attacks)
      requires VarMapOk(names, varOf, nVars)
      ensures this.names == names && this.varOf == varOf && this.attacks == attacks
      ensures Fresh(nVars)
    {
      this.names, this.varOf, this.attacks := names, varOf, attacks;
      nbVars, clauses, softs, disjunctionVars, dynVars := nVars, [], [], map[], [];
      owner := seq(nVars, i => OfArg);
    }

    ghost predicate Fresh(nVars: nat)
      reads this
    {
      && VarMapOk(names, varOf, nVars) && nbVars == nVars
      && clauses == [] && softs == [] && disjunctionVars == map[] && dynVars == []
      && |owner| == nVars && forall v :: 0 <= v < nVars ==> owner[v] == OfArg
    }

    function EncNow(): Enc
      reads this, attacks
    {
      Enc(names, varOf, attacks.attacks, disjunctionVars, dynVars)
    }

    method ReserveVars(n: nat) returns (first: nat)
      modifies this`nbVars
      ensures first == old(nbVars) && nbVars == first + n
    {
      first := nbVars;
      nbVars := nbVars + n;
    }

    /** Reserves the variables telling that an argument is attacked, and those of the changing attacks. */
    method ReserveDisjunctionVars(ghost nVars: nat)
      requires Fresh(nVars) && (forall i, j :: 0 <= i < j < |names| ==> names[i] != names[j])
      modifies this
      ensures AllOwned(EncNow(), owner, true) && Covers(dynVars, attacks.dynAttacks, |attacks.dynAttacks|) && |owner| == nbVars
      ensures clauses == AllDyn(EncNow(), dynVars, true) && softs == []
      ensures old(owner) <= owner
    {
      ReserveDisj(nVars);
      ReserveDynVars(true);
    }

    method ReserveDisj(ghost nVars: nat)
      requires Fresh(nVars) && (forall i, j :: 0 <= i < j < |names| ==> names[i] != names[j])
      modifies this
      ensures AllOwned(EncNow(), owner, true) && dynVars == [] && clauses == [] && softs == [] && |owner| == nbVars
      ensures old(owner) <= owner
    {
      hide DisjReserved;
      ghost var e0 := EncNow();
      ArgsOwnedFresh(e0, owner);
      NothingReserved(e0, owner);
      var i := 0;
      assert names[..0] == [];
      while i < |names|
        invariant 0 <= i <= |names| && clauses == [] && softs == [] && dynVars == [] && |owner| == nbVars
        invariant old(owner) <= owner && EncNow() == e0.(disj := disjunctionVars) && DisjReserved(EncNow(), owner, names[..i])
      {
        assert names[i] !in names[..i] && names[..i + 1] == names[..i] + [names[i]];
        OwnDisj(EncNow(), owner, names[..i], names[i]);
        var v := ReserveVars(1);
        owner := owner + [OfDisj(names[i])];
        disjunctionVars := disjunctionVars[names[i] := v];
        i := i + 1;
      }
      assert names[..i] == names;
      AllOwnedNoDyn(EncNow(), owner);
    }

    /** Reserves the variables of the changing attacks, one set per attack however often it changes. */
    method ReserveDynVars(reserve: bool)
      requires dynVars == [] && AllOwned(EncNow(), owner, reserve) && |owner| == nbVars
      modifies this`nbVars, this`owner, this`dynVars, this`clauses
      ensures AllOwned(EncNow(), owner, reserve) && Covers(dynVars, attacks.dynAttacks, |attacks.dynAttacks|) && |owner| == nbVars
      ensures clauses == old(clauses) + AllDyn(EncNow(), dynVars, reserve)
      ensures old(owner) <= owner
    {
      hide AllOwned, Covers;
      var i := 0;
      CoversNone(attacks.dynAttacks);
      while i < |attacks.dynAttacks|
        invariant 0 <= i <= |attacks.dynAttacks| && Covers(dynVars, attacks.dynAttacks, i)
        invariant AllOwned(EncNow(), owner, reserve) && |owner| == nbVars
        invariant old(owner) <= owner
        invariant clauses == old(clauses) + AllDyn(EncNow(), dynVars, reserve)
      {
        var change := attacks.dynAttacks[i];
        var j := 0;
        while j < |dynVars| && !(change.from == dynVars[j].from && change.to == dynVars[j].to)
          modifies {}
          invariant 0 <= j <= |dynVars|
          invariant forall k :: 0 <= k < j ==> (dynVars[k].from, dynVars[k].to) != change.Pair()
        {
          j := j + 1;
        }
        if j < |dynVars| {
          assert HasDyn(dynVars, change.Pair());
          CoversSame(dynVars, attacks.dynAttacks, i);
        } else {
          ReserveDynVar(change, reserve, i);
        }
        i := i + 1;
      }
    }

    method ReserveDynVar(change: Change, reserve: bool, ghost i: nat)
      requires i < |attacks.dynAttacks| && Covers(dynVars, attacks.dynAttacks, i) && change == attacks.dynAttacks[i]
      requires !HasDyn(dynVars, change.Pair()) && AllOwned(EncNow(), owner, reserve) && |owner| == nbVars
      modifies this`nbVars, this`owner, this`dynVars, this`clauses
      ensures Covers(dynVars, attacks.dynAttacks, i + 1) && AllOwned(EncNow(), owner, reserve) && |owner| == nbVars
      ensures |dynVars| == |old(dynVars)| + 1 && dynVars[..|old(dynVars)|] == old(dynVars)
      ensures old(owner) <= owner
      ensures forall cs :: old(clauses) == cs + AllDyn(old(EncNow()), old(dynVars), reserve) ==> clauses == cs + AllDyn(EncNow(), dynVars, reserve)
    {
      hide AllOwned, Covers, DynClauses;
      ghost var e0, dyn0 := EncNow(), dynVars;
      var offset := if reserve then 1 else 0;
      var fromRepl := ReserveVars(2 + offset);
      var notAttackedRepl := if reserve then fromRepl + 1 else 0;
      var assump := fromRepl + 1 + offset;
      var d := DynVar(change.from, change.to, fromRepl, notAttackedRepl, assump);
      OwnMore(e0, owner, d, reserve);
      CoversMore(dynVars, attacks.dynAttacks, i, d);
      owner := owner + DynOwners(|dynVars|, reserve);
      dynVars := dynVars + [d];
      assert EncNow() == e0.(dyn := e0.dyn + [d]);
      var e := EncNow();
      DynClausesDependOn(e0, e, dyn0, reserve);
      clauses := clauses + DynClauses(e, d, reserve);
      assert dynVars[..|dyn0|] == dyn0;
    }

    /** The variable that stands for an attacker. */
    method LookForDynAttackerReplacement(attacked: Arg, attacker: Arg) returns (v: nat)
      ensures v == EncNow().Attacker(attacker, attacked)
    {
      var i := 0;
      assert dynVars[0..] == dynVars;
      while i < |dynVars|
        invariant 0 <= i <= |dynVars| && Find(dynVars[i..], attacker, attacked) == Find(dynVars, attacker, attacked)
      {
        if dynVars[i].from == attacker && dynVars[i].to == attacked {
          return dynVars[i].fromRepl;
        }
        i := i + 1;
      }
      return EncNow().X(attacker);
    }

    /** The literal that answers an attacker. */
    method LookForAnswer(attacked: Arg, attacker: Arg) returns (l: Lit)
      ensures l == EncNow().Answer(attacker, attacked)
    {
      l := Pos(EncNow().P(attacker));
      var i := 0;
      assert dynVars[0..] == dynVars;
      while i < |dynVars|
        invariant 0 <= i <= |dynVars| && Find(dynVars[i..], attacker, attacked) == Find(dynVars, attacker, attacked)
        invariant l == Pos(EncNow().P(attacker))
      {
        if dynVars[i].from == attacker && dynVars[i].to == attacked {
          return Neg(dynVars[i].notAttackedRepl);
        }
        i := i + 1;
      }
    }

    method CreateAttackersDisjunctionVars()
      modifies this`clauses
      ensures clauses == old(clauses) + DisjunctionAll(EncNow())
    {
      hide DisjunctionClauses;
      ghost var e := EncNow();
      ghost var f := a => DisjunctionClauses(e, a);
      var i := 0;
      while i < |names|
        invariant 0 <= i <= |names| && EncNow() == e
        invariant clauses == old(clauses) + All(names[..i], f)
      {
        AllStep(names, f, i);
        PushDisjunction(names[i]);
        i := i + 1;
      }
      assert names[..i] == names;
    }

    method PushDisjunction(a: Arg)
      modifies this`clauses
      ensures clauses == old(clauses) + DisjunctionClauses(EncNow(), a)
    {
      ghost var e := EncNow();
      var bs := To(attacks.attacks, a);
      var v, disjVar := EncNow().X(a), EncNow().P(a);
      clauses := clauses + [[Neg(v), Neg(disjVar)]];
      var completeCl := [Neg(disjVar)];
      var k := 0;
      while k < |bs|
        invariant 0 <= k <= |bs| && EncNow() == e
        invariant clauses == old(clauses) + [[Neg(v), Neg(disjVar)]] + AttackerClauses(e, a, bs[..k])
        invariant completeCl == [Neg(disjVar)] + Attackers(e, a, bs[..k])
      {
        var attacker := LookForDynAttackerReplacement(a, bs[k]);
        clauses := clauses + [[Pos(disjVar), Neg(attacker)]];
        completeCl := completeCl + [Pos(attacker)];
        assert AttackerClauses(e, a, bs[..k + 1]) == AttackerClauses(e, a, bs[..k]) + [[Pos(disjVar), Neg(attacker)]];
        assert Attackers(e, a, bs[..k + 1]) == Attackers(e, a, bs[..k]) + [Pos(attacker)];
        k := k + 1;
      }
      assert bs[..k] == bs;
      clauses := clauses + [completeCl];
    }

    method CreateCompleteEncodingConstraints()
      modifies this`clauses
      ensures clauses == old(clauses) + CompleteAll(EncNow())
    {
      hide CompleteClauses;
      ghost var e := EncNow();
      ghost var f := a => CompleteClauses(e, a);
      var i := 0;
      while i < |names|
        invariant 0 <= i <= |names| && EncNow() == e
        invariant clauses == old(clauses) + All(names[..i], f)
      {
        AllStep(names, f, i);
        PushComplete(names[i]);
        i := i + 1;
      }
      assert names[..i] == names;
    }

    method PushComplete(a: Arg)
      modifies this`clauses
      ensures clauses == old(clauses) + CompleteClauses(EncNow(), a)
    {
      ghost var e := EncNow();
      var bs := To(attacks.attacks, a);
      var v := EncNow().X(a);
      var completeCl := [Pos(v)];
      var k := 0;
      while k < |bs|
        invariant 0 <= k <= |bs| && EncNow() == e
        invariant clauses == old(clauses) + AnswerClauses(e, a, bs[..k])
        invariant completeCl == [Pos(v)] + NotAnswers(e, a, bs[..k])
      {
        var answer := LookForAnswer(a, bs[k]);
        clauses := clauses + [[Neg(v), answer]];
        completeCl := completeCl + [answer.Not()];
        assert AnswerClauses(e, a, bs[..k + 1]) == AnswerClauses(e, a, bs[..k]) + [[Neg(v), answer]];
        assert NotAnswers(e, a, bs[..k + 1]) == NotAnswers(e, a, bs[..k]) + [answer.Not()];
        k := k + 1;
      }
      assert bs[..k] == bs;
      clauses := clauses + [completeCl];
    }

    method CreateConflictFreenessEncodingConstraints()
      modifies this`clauses
      ensures clauses == old(clauses) + ConflictFreeAll(EncNow())
    {
      hide ConflictFreeClauses;
      ghost var e := EncNow();
      ghost var f := a => ConflictFreeClauses(e, a);
      var i := 0;
      while i < |names|
        invariant 0 <= i <= |names| && EncNow() == e
        invariant clauses == old(clauses) + All(names[..i], f)
      {
        AllStep(names, f, i);
        PushConflictFree(names[i]);
        i := i + 1;
      }
      assert names[..i] == names;
    }

    method PushConflictFree(a: Arg)
      modifies this`clauses
      ensures clauses == old(clauses) + ConflictFreeClauses(EncNow(), a)
    {
      ghost var e := EncNow();
      var bs := To(attacks.attacks, a);
      var v := EncNow().X(a);
      var k := 0;
      while k < |bs|
        invariant 0 <= k <= |bs| && EncNow() == e
        invariant clauses == old(clauses) + ConflictFreeClauses(e, a)[..k]
      {
        var attacker := LookForDynAttackerReplacement(a, bs[k]);
        clauses := clauses + [[Neg(v), Neg(attacker)]];
        k := k + 1;
      }
    }

    method CreateStableEncodingConstraints()
      requires dynVars == [] && AllOwned(EncNow(), owner, false) && |owner| == nbVars
      modifies this`nbVars, this`owner, this`dynVars, this`clauses
      ensures AllOwned(EncNow(), owner, false) && Covers(dynVars, attacks.dynAttacks, |attacks.dynAttacks|) && |owner| == nbVars
      ensures clauses == old(clauses) + StableEncoding(EncNow())
      ensures old(owner) <= owner
    {
      hide AllOwned, Covers, All, AllDyn;
      ReserveDynVars(false);
      PushAllStable();
    }

    method PushAllStable()
      modifies this`clauses
      ensures clauses == old(clauses) + StableAll(EncNow())
    {
      hide StableClauses;
      ghost var e := EncNow();
      ghost var f := a => StableClauses(e, a);
      var i := 0;
      while i < |names|
        invariant 0 <= i <= |names| && EncNow() == e
        invariant clauses == old(clauses) + All(names[..i], f)
      {
        AllStep(names, f, i);
        PushStable(names[i]);
        i := i + 1;
      }
      assert names[..i] == names;
    }

    method PushStable(a: Arg)
      modifies this`clauses
      ensures clauses == old(clauses) + StableClauses(EncNow(), a)
    {
      ghost var e := EncNow();
      var bs := To(attacks.attacks, a);
      var v := EncNow().X(a);
      var completeCl := [Pos(v)];
      var k := 0;
      while k < |bs|
        invariant 0 <= k <= |bs| && EncNow() == e
        invariant clauses == old(clauses) + ExcludeClauses(e, a, bs[..k])
        invariant completeCl == [Pos(v)] + OtherAttackers(e, a, bs[..k])
      {
        var attacker := LookForDynAttackerReplacement(a, bs[k]);
        var binaryCl := [Neg(v)];
        if v != attacker { binaryCl := binaryCl + [Neg(attacker)]; }
        clauses := clauses + [binaryCl];
        if v != attacker { completeCl := completeCl + [Pos(attacker)]; }
        assert bs[..k + 1][..k] == bs[..k];
        assert bs[..k + 1][k] == bs[k];
        assert binaryCl == [Neg(v)] + if v != attacker then [Neg(attacker)] else [];
        assert ExcludeClauses(e, a, bs[..k + 1])[k] == binaryCl;
        assert ExcludeClauses(e, a, bs[..k + 1]) == ExcludeClauses(e, a, bs[..k]) + [binaryCl];
        k := k + 1;
      }
      assert bs[..k] == bs;
      clauses := clauses + [completeCl];
    }

    /** One unit soft clause per argument variable. */
    method SetMaxExtensionNeeded(nVars: nat)
      modifies this`softs
      ensures softs == old(softs) + ExtensionSofts(nVars)
    {
      for i := 0 to nVars
        invariant softs == old(softs) + ExtensionSofts(i)
      {
        softs := softs + [[Pos(i)]];
        assert ExtensionSofts(i + 1) == ExtensionSofts(i) + [[Pos(i)]];
      }
    }

    /** One soft clause per argument: it is in, or it is attacked. */
    method SetMaxRangeNeeded()
      modifies this`softs
      ensures softs == old(softs) + RangeSofts(EncNow())
    {
      var i := 0;
      while i < |names|
        invariant 0 <= i <= |names| && softs == old(softs) + RangeSofts(EncNow())[..i]
      {
        softs := softs + [[Pos(EncNow().X(names[i])), Pos(EncNow().P(names[i]))]];
        i := i + 1;
      }
    }

    /** The entry of a changed attack. */
    method FindDynVar(from: Arg, to: Arg) returns (j: nat)
      requires HasDyn(dynVars, (from, to))
      ensures j < |dynVars| && PairOf(dynVars[j]) == (from, to)
    {
      j := 0;
      while !(dynVars[j].from == from && dynVars[j].to == to)
        invariant j < |dynVars| && forall k :: 0 <= k < j ==> PairOf(dynVars[k]) != (from, to)
        decreases |dynVars| - j
      {
        assert exists k :: 0 <= k < |dynVars| && PairOf(dynVars[k]) == (from, to) by {
          var k :| 0 <= k < |dynVars| && (dynVars[k].from, dynVars[k].to) == (from, to);
          assert PairOf(dynVars[k]) == (from, to);
        }
        j := j + 1;
      }
    }

    /** Where the list mentions a switch. */
    method FindSwitch(assumps: seq<Lit>, assump: Lit) returns (k: nat)
      ensures k <= |assumps| && forall x :: 0 <= x < k ==> assumps[x].v != assump.v
      ensures k < |assumps| ==> assumps[k] == assump || assumps[k] == assump.Not()
    {
      k := 0;
      while k < |assumps| && assumps[k] != assump && assumps[k] != assump.Not()
        invariant 0 <= k <= |assumps| && forall x :: 0 <= x < k ==> assumps[x].v != assump.v
      {
        k := k + 1;
      }
    }

    /** Lists the switch of a change already applied; a later change overrides an earlier one. */
    method ListChange(i: nat, assumps0: seq<Lit>) returns (assumps: seq<Lit>)
      requires Covers(dynVars, attacks.dynAttacks, |attacks.dynAttacks|) && DistinctSwitches(dynVars) && i < |attacks.dynAttacks|
      requires Listed(dynVars, attacks.dynAttacks, i, Replay(attacks.initial, attacks.dynAttacks, i), assumps0)
      ensures Listed(dynVars, attacks.dynAttacks, i + 1, Replay(attacks.initial, attacks.dynAttacks, i + 1), assumps)
    {
      hide Listed, DistinctSwitches;
      ghost var changes := attacks.dynAttacks;
      var c := attacks.dynAttacks[i];
      assert ChangedBefore(changes, |changes|, c.Pair());
      var j := FindDynVar(c.from, c.to);
      var assump := Lit(dynVars[j].assump, !c.add);
      var k := FindSwitch(assumps0, assump);
      if k == |assumps0| {
        assumps := assumps0 + [assump];
      } else {
        assumps := if assumps0[k] == assump.Not() then assumps0[k := assump] else assumps0;
        assert assumps == assumps0[k := assump];
      }
      ListedNext(dynVars, changes, i, Replay(attacks.initial, changes, i), Replay(attacks.initial, changes, i + 1), assumps0, assumps, j);
    }

    /** Lists the switch of a change not applied yet, unless its attack is listed already. */
    method ListInitial(i: nat, assumps0: seq<Lit>, ghost s: nat) returns (assumps: seq<Lit>)
      requires Covers(dynVars, attacks.dynAttacks, |attacks.dynAttacks|) && DistinctSwitches(dynVars)
      requires attacks.Valid() && s <= i < |attacks.dynAttacks|
      requires Listed(dynVars, attacks.dynAttacks, i, Replay(attacks.initial, attacks.dynAttacks, s), assumps0)
      ensures Listed(dynVars, attacks.dynAttacks, i + 1, Replay(attacks.initial, attacks.dynAttacks, s), assumps)
    {
      hide Listed, DistinctSwitches;
      ghost var changes, r := attacks.dynAttacks, Replay(attacks.initial, attacks.dynAttacks, s);
      var c := attacks.dynAttacks[i];
      assert ChangedBefore(changes, |changes|, c.Pair());
      var j := FindDynVar(c.from, c.to);
      var assump := Pos(dynVars[j].assump);
      var k := FindSwitch(assumps0, assump);
      if k == |assumps0| {
        NotListed(dynVars, attacks.initial, changes, s, i, j, assumps0);
        assumps := assumps0 + [if c.initState then assump else assump.Not()];
      } else {
        ListedSame(dynVars, changes, i, r, assumps0, k, j);
        assumps := assumps0;
        assert assumps == assumps0[k := assumps0[k]];
      }
      ListedNext(dynVars, changes, i, r, r, assumps0, assumps, j);
    }

    /** The assumptions that set the switches to the framework after change number `step`; before any
        change when it is -1. */
    method DynAssumps(step: int, ghost reserved: bool) returns (assumps: seq<Lit>)
      requires attacks.Valid() && DynOwned(EncNow(), owner, reserved) && Covers(dynVars, attacks.dynAttacks, |attacks.dynAttacks|)
      requires -1 <= step < |attacks.dynAttacks|
      ensures forall m: Assignment :: TrueAll(m, assumps) <==> Switched(EncNow(), m, Replay(attacks.initial, attacks.dynAttacks, step + 1))
      ensures forall d :: d in dynVars ==> SwitchLit(d, PairOf(d) in Replay(attacks.initial, attacks.dynAttacks, step + 1)) in assumps
      ensures forall l :: l in assumps ==> l.v < |owner|
    {
      hide Listed, Covers, Switched, TrueAll, DistinctSwitches;
      ghost var changes, r := attacks.dynAttacks, Replay(attacks.initial, attacks.dynAttacks, step + 1);
      OwnedDistinct(EncNow(), owner, changes, reserved);
      NothingListed(dynVars, changes, attacks.initial);
      assumps := [];
      var i := 0;
      while i <= step
        invariant 0 <= i <= step + 1
        invariant Listed(dynVars, changes, i, Replay(attacks.initial, changes, i), assumps)
      {
        assumps := ListChange(i, assumps);
        i := i + 1;
      }
      while i < |attacks.dynAttacks|
        invariant step + 1 <= i <= |attacks.dynAttacks| && Listed(dynVars, changes, i, r, assumps)
      {
        assumps := ListInitial(i, assumps, step + 1);
        i := i + 1;
      }
      forall m: Assignment ensures TrueAll(m, assumps) <==> Switched(EncNow(), m, r) { ListedSwitched(EncNow(), changes, r, assumps, m); }
      ListedOwned(EncNow(), owner, reserved, changes, r, assumps);
      ListedAll(dynVars, changes, r, assumps);
    }
  }

  lemma NothingListed(dyn: seq<DynVar>, changes: seq<Change>, initial: set<Attack>)
    ensures Listed(dyn, changes, 0, Replay(initial, changes, 0), [])
  {
  }

  lemma ListedAll(dyn: seq<DynVar>, changes: seq<Change>, r: set<Attack>, out: seq<Lit>)
    requires Covers(dyn, changes, |changes|) && Listed(dyn, changes, |changes|, r, out)
    ensures forall d :: d in dyn ==> SwitchLit(d, PairOf(d) in r) in out
  {
    forall d | d in dyn ensures SwitchLit(d, PairOf(d) in r) in out {
      var j :| 0 <= j < |dyn| && dyn[j] == d;
      assert HasDyn(dyn, PairOf(d));
    }
  }

  lemma ListedOwned(e: Enc, owner: seq<Owner>, reserve: bool, changes: seq<Change>, r: set<Attack>, out: seq<Lit>)
    requires DynOwned(e, owner, reserve) && Listed(e.dyn, changes, |changes|, r, out)
    ensures forall l :: l in out ==> l.v < |owner|
  {
    forall l | l in out ensures l.v < |owner| {
      var x :| 0 <= x < |out| && out[x] == l;
      assert IsSwitch(e.dyn, changes, |changes|, r, out[x]);
    }
  }

  ghost predicate IsVariable(names: seq<Arg>, varOf: map<Arg, nat>, v: nat) {
    exists a :: a in names && a in varOf && varOf[a] == v
  }

  /** Every argument has a variable below `nVars`, and every such variable an argument. */
  ghost predicate VarMapOk(names: seq<Arg>, varOf: map<Arg, nat>, nVars: nat) {
    && (forall a :: a in names ==> a in varOf && varOf[a] < nVars)
    && (forall v: nat :: v < nVars ==> IsVariable(names, varOf, v))
  }

  lemma ArgsOwnedFresh(e: Enc, owner: seq<Owner>)
    requires VarMapOk(e.names, e.varOf, |owner|) && forall v :: 0 <= v < |owner| ==> owner[v] == OfArg
    ensures ArgsOwned(e, owner)
  {
    forall v: nat | v < |owner| && owner[v] == OfArg ensures exists a :: a in e.names && e.X(a) == v {
      assert IsVariable(e.names, e.varOf, v);
      var a :| a in e.names && a in e.varOf && e.varOf[a] == v;
      assert e.X(a) == v;
    }
  }

  lemma NothingReserved(e: Enc, owner: seq<Owner>)
    requires ArgsOwned(e, owner) && e.dyn == [] && e.disj == map[] && forall v :: 0 <= v < |owner| ==> owner[v] == OfArg
    ensures DisjReserved(e, owner, [])
  {
    hide ArgsOwned;
  }

  lemma AllOwnedNoDyn(e: Enc, owner: seq<Owner>)
    requires DisjReserved(e, owner, e.names)
    ensures AllOwned(e, owner, true)
  {
    hide ArgsOwned;
  }

  lemma CoversNone(changes: seq<Change>)
    ensures Covers([], changes, 0)
  {
  }
}
