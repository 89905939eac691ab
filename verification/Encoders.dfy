/** Encoding a whole framework, as the semantics solvers do when they start. */
module Encoders {
  import opened Cnf
  import opened Argumentation
  import opened AttackStore
  import opened Encoding
  import opened EncodingModels
  import opened EncodingBuilder
  import opened Formulas

  /** The stored attacks and the changes speak of declared arguments. */
  ghost predicate DeclaredIn(names: seq<Arg>, initial: set<Attack>, changes: seq<Change>) {
    && (forall p :: p in initial ==> p.0 in names && p.1 in names)
    && (forall i :: 0 <= i < |changes| ==> changes[i].from in names && changes[i].to in names)
  }

  lemma DeclaredEnc(e: Enc, initial: set<Attack>, changes: seq<Change>)
    requires DeclaredIn(e.names, initial, changes) && Recorded(e.attacks, changes, initial) && Covers(e.dyn, changes, |changes|)
    ensures Declared(e)
  {
    forall d | d in e.dyn ensures d.from in e.names && d.to in e.names {
      var j :| 0 <= j < |e.dyn| && e.dyn[j] == d;
      assert HasDyn(e.dyn, (d.from, d.to));
      assert ChangedBefore(changes, |changes|, (d.from, d.to));
      var i :| 0 <= i < |changes| && changes[i].Pair() == (d.from, d.to);
    }
  }

  predicate Below(c: Clause, n: nat) {
    forall l :: l in c ==> l.v < n
  }

  ghost predicate AllBelow(cs: seq<Clause>, n: nat) {
    forall c :: c in cs ==> Below(c, n)
  }

  lemma {:induction false} AllAllBelow(names: seq<Arg>, f: Arg -> seq<Clause>, n: nat)
    requires forall a :: a in names ==> AllBelow(f(a), n)
    ensures AllBelow(All(names, f), n)
  {
    forall c | c in All(names, f) ensures Below(c, n) { AllHas(names, f, c); }
  }

  lemma VarsBelow(e: Enc, owner: seq<Owner>, b: Arg, a: Arg)
    requires AllOwned(e, owner, true) && a in e.names && b in e.names
    ensures e.X(a) < |owner| && e.P(a) < |owner| && e.Attacker(b, a) < |owner| && e.Answer(b, a).v < |owner|
  {
    FindMeans(e.dyn, b, a);
    if Find(e.dyn, b, a).Some? {
      var k :| 0 <= k < |e.dyn| && e.dyn[k] == Find(e.dyn, b, a).value;
    }
  }

  lemma ArgBelow(e: Enc, owner: seq<Owner>, a: Arg)
    requires AllOwned(e, owner, true) && Declared(e) && a in e.names
    ensures AllBelow(DisjunctionClauses(e, a), |owner|) && AllBelow(CompleteClauses(e, a), |owner|) && AllBelow(ConflictFreeClauses(e, a), |owner|)
  {
    hide AllOwned;
    var n, bs := |owner|, To(e.attacks, a);
    VarsBelow(e, owner, a, a);
    forall i | 0 <= i < |bs| ensures e.Attacker(bs[i], a) < n && e.Answer(bs[i], a).v < n {
      PairsTo(e.attacks, bs[i], a);
      VarsBelow(e, owner, bs[i], a);
    }
  }

  lemma DynVarBelow(e: Enc, owner: seq<Owner>, d: DynVar)
    requires DynOwned(e, owner, true) && d in e.dyn
    ensures d.fromRepl < |owner| && d.assump < |owner| && d.notAttackedRepl < |owner|
  {
    var k :| 0 <= k < |e.dyn| && e.dyn[k] == d;
  }

  lemma OneDynBelow(e: Enc, owner: seq<Owner>, d: DynVar)
    requires AllOwned(e, owner, true) && Declared(e) && d in e.dyn
    ensures AllBelow(DynClauses(e, d, true), |owner|)
  {
    hide AllOwned, Declared, Find;
    DynVarBelow(e, owner, d) by { AllOwnedDyn(e, owner); }
    VarsBelow(e, owner, d.from, d.from) by { DeclaredDyn(e, d); }
    var n := |owner|;
    forall i | 0 <= i < 3 ensures Below(ReplClauses(e, d)[i], n) && Below(NotAttackedClauses(e, d)[i], n) { }
  }

  lemma AllOwnedDyn(e: Enc, owner: seq<Owner>)
    requires AllOwned(e, owner, true)
    ensures DynOwned(e, owner, true)
  {
  }

  lemma DeclaredDyn(e: Enc, d: DynVar)
    requires Declared(e) && d in e.dyn
    ensures d.from in e.names
  {
  }

  lemma {:induction false} DynBelow(e: Enc, owner: seq<Owner>, dyn: seq<DynVar>)
    requires AllOwned(e, owner, true) && Declared(e) && forall d :: d in dyn ==> d in e.dyn
    ensures AllBelow(AllDyn(e, dyn, true), |owner|)
  {
    hide AllOwned, Declared, DynClauses;
    if dyn != [] {
      DynBelow(e, owner, dyn[..|dyn| - 1]);
      assert dyn[|dyn| - 1] in dyn;
      OneDynBelow(e, owner, dyn[|dyn| - 1]);
    }
  }

  /** The encodings use reserved variables only. */
  lemma EncodingBelow(e: Enc, owner: seq<Owner>)
    requires AllOwned(e, owner, true) && Declared(e)
    ensures ClausesBelow(CompleteEncoding(e), |owner|) && ClausesBelow(ConflictFreeEncoding(e), |owner|)
  {
    hide AllOwned, Declared, DisjunctionClauses, CompleteClauses, ConflictFreeClauses;
    DynBelow(e, owner, e.dyn);
    forall a | a in e.names
      ensures AllBelow(DisjunctionClauses(e, a), |owner|) && AllBelow(CompleteClauses(e, a), |owner|) && AllBelow(ConflictFreeClauses(e, a), |owner|)
    {
      ArgBelow(e, owner, a);
    }
    AllAllBelow(e.names, a => DisjunctionClauses(e, a), |owner|);
    AllAllBelow(e.names, a => CompleteClauses(e, a), |owner|);
    AllAllBelow(e.names, a => ConflictFreeClauses(e, a), |owner|);
  }

  /** A helper that has built one of the encodings over `nVars` argument variables. */
  ghost predicate Encoded(h: SatEncodingHelper, attacks: Attacks, nVars: nat)
    reads h, attacks
  {
    && h.attacks == attacks && attacks.Valid()
    && AllOwned(h.EncNow(), h.owner, true) && |h.owner| == h.nbVars && nVars <= h.nbVars
    && (forall v :: 0 <= v < nVars ==> h.owner[v] == OfArg)
    && (forall a :: a in h.names ==> h.EncNow().X(a) < nVars)
    && Declared(h.EncNow()) && Covers(h.dynVars, attacks.dynAttacks, |attacks.dynAttacks|)
  }

  /** The arguments, their variables, and the attacks a solver starts from. */
  ghost predicate InputOk(names: seq<Arg>, varOf: map<Arg, nat>, nVars: nat, attacks: Attacks)
    reads attacks
  {
    && VarMapOk(names, varOf, nVars) && attacks.Valid() && DeclaredIn(names, attacks.initial, attacks.dynAttacks)
    && (forall i, j :: 0 <= i < j < |names| ==> names[i] != names[j])
  }

  method EncodeAttacked(names: seq<Arg>, varOf: map<Arg, nat>, nVars: nat, attacks: Attacks) returns (h: SatEncodingHelper)
    requires InputOk(names, varOf, nVars, attacks)
    ensures fresh(h) && h.names == names && h.varOf == varOf && Encoded(h, attacks, nVars) && h.softs == []
    ensures h.clauses == AttackedEncoding(h.EncNow())
  {
    hide AllOwned, Declared, Covers;
    h := new SatEncodingHelper(names, varOf, nVars, attacks);
    ghost var owner0 := h.owner;
    h.ReserveDisjunctionVars(nVars);
    DeclaredEnc(h.EncNow(), attacks.initial, attacks.dynAttacks);
    h.CreateAttackersDisjunctionVars();
    assert forall v :: 0 <= v < nVars ==> h.owner[v] == owner0[v];
  }
}
