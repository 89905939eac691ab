/** Grounded, preferred and stable extensions in one run. */
module TriathlonSolver {
  import opened Cnf
  import opened Argumentation
  import opened AttackStore
  import opened Encoding
  import opened EncodingModels
  import opened EncodingBuilder
  import opened Encoders
  import opened Formulas
  import opened SoftMss
  import opened MssSolver
  import opened ExtensionWorklist
  import opened PreferredSemantics

  lemma NumberedInput(nameOf: seq<Arg>, varOf: map<Arg, nat>)
    requires Numbered(nameOf, varOf)
    ensures VarMapOk(nameOf, varOf, |nameOf|) && forall i, j :: 0 <= i < j < |nameOf| ==> nameOf[i] != nameOf[j]
  {
    forall v: nat | v < |nameOf| ensures IsVariable(nameOf, varOf, v) {
      assert nameOf[v] in nameOf && varOf[nameOf[v]] == v;
    }
    forall i, j | 0 <= i < j < |nameOf| ensures nameOf[i] != nameOf[j] {
      assert varOf[nameOf[i]] == i && varOf[nameOf[j]] == j;
    }
  }

  /** Different arguments have different variables, so nothing is merged. */
  lemma NumberedMerges(nameOf: seq<Arg>, varOf: map<Arg, nat>, f: Framework)
    requires Numbered(nameOf, varOf)
    ensures Merges(Plain(nameOf, varOf), f)
  {
    var e := Plain(nameOf, varOf);
    forall a, b | a in nameOf && b in nameOf && e.X(a) == e.X(b) ensures a == b {
      var i :| 0 <= i < |nameOf| && nameOf[i] == a;
      var j :| 0 <= j < |nameOf| && nameOf[j] == b;
      assert varOf[nameOf[i]] == i && varOf[nameOf[j]] == j;
    }
  }

  /** Without changes, the stored attacks are the initial ones. */
  lemma StaticPairs(attacks: map<Arg, seq<Arg>>, initial: set<Attack>, nameOf: seq<Arg>, varOf: map<Arg, nat>)
    requires Recorded(attacks, [], initial) && DeclaredIn(nameOf, initial, []) && Numbered(nameOf, varOf)
    ensures Pairs(attacks) == initial && AttacksNumbered(varOf, attacks)
  {
    forall p ensures p in Pairs(attacks) <==> p in initial { assert !ChangedBefore([], 0, p); }
  }

  lemma NoSwitches(e: Enc, owner: seq<Owner>, n: nat, a: seq<Lit>, r: set<Attack>)
    requires Query(e, owner, n, a, r) && e.dyn == []
    ensures Query(e, owner, n, [], r)
  {
    hide AllOwned, Selects, Declared;
  }

  lemma NoChangesNoDyn(dyn: seq<DynVar>)
    requires Covers(dyn, [], 0)
    ensures dyn == []
  {
    if dyn != [] {
      assert HasDyn(dyn, (dyn[0].from, dyn[0].to));
    }
  }

  /** The preferred extensions with full range are the stable ones. */
  lemma FullRangeIsStable(f: Framework, s: set<Arg>)
    requires Wf(f)
    ensures Stable(f, s) <==> Preferred(f, s) && Range(f, s) == f.args
  {
    if Stable(f, s) {
      StableIsPreferred(f, s);
      assert Range(f, s) == f.args;
    }
    if Preferred(f, s) && Range(f, s) == f.args {
      forall a | a in f.args && a !in s ensures Attacked(f, s, a) { assert a in Range(f, s); }
    }
  }

  lemma IdsAreNames(nameOf: seq<Arg>, varOf: map<Arg, nat>, ids: seq<nat>)
    requires Numbered(nameOf, varOf) && forall v :: v in ids ==> v < |nameOf|
    ensures ArgsOf(nameOf, varOf, ids) == set v | v in ids :: nameOf[v]
  {
    var e, s := Plain(nameOf, varOf), set v | v in ids :: nameOf[v];
    forall a | a in s ensures a in ArgsOf(nameOf, varOf, ids) {
      var v :| v in ids && nameOf[v] == a;
      assert e.X(a) == v;
    }
    forall a | a in ArgsOf(nameOf, varOf, ids) ensures a in s {
      assert nameOf[e.X(a)] == a;
    }
  }

  ghost predicate FullRange(nameOf: seq<Arg>, varOf: map<Arg, nat>, f: Framework, x: seq<nat>) {
    Range(f, ArgsOf(nameOf, varOf, x)) == f.args
  }

  ghost predicate Apart(nameOf: seq<Arg>, varOf: map<Arg, nat>, st: seq<seq<nat>>) {
    forall i, j :: 0 <= i < j < |st| ==> ArgsOf(nameOf, varOf, st[i]) != ArgsOf(nameOf, varOf, st[j])
  }

  /** `st` lists the sets of `pr[..k]` that have full range. */
  ghost predicate Filtered(nameOf: seq<Arg>, varOf: map<Arg, nat>, f: Framework, pr: seq<seq<nat>>, k: nat, st: seq<seq<nat>>)
    requires k <= |pr|
  {
    (forall x :: x in st <==> x in pr[..k] && FullRange(nameOf, varOf, f, x)) && Apart(nameOf, varOf, st)
  }

  lemma FilteredNext(nameOf: seq<Arg>, varOf: map<Arg, nat>, f: Framework, pr: seq<seq<nat>>, k: nat, st: seq<seq<nat>>, st': seq<seq<nat>>)
    requires k < |pr| && Filtered(nameOf, varOf, f, pr, k, st) && ListsExactly(nameOf, varOf, pr, PreferredExts(f))
    requires st' == if FullRange(nameOf, varOf, f, pr[k]) then st + [pr[k]] else st
    ensures Filtered(nameOf, varOf, f, pr, k + 1, st')
  {
    hide ArgsOf, PreferredExts, FullRange, Apart, ListsExactly;
    assert pr[..k + 1] == pr[..k] + [pr[k]];
    if st' == st + [pr[k]] { ApartMore(nameOf, varOf, f, pr, k, st); }
  }

  lemma ApartMore(nameOf: seq<Arg>, varOf: map<Arg, nat>, f: Framework, pr: seq<seq<nat>>, k: nat, st: seq<seq<nat>>)
    requires k < |pr| && Filtered(nameOf, varOf, f, pr, k, st) && ListsExactly(nameOf, varOf, pr, PreferredExts(f))
    ensures Apart(nameOf, varOf, st + [pr[k]])
  {
    hide ArgsOf, PreferredExts, FullRange;
    forall i | 0 <= i < |st| ensures ArgsOf(nameOf, varOf, st[i]) != ArgsOf(nameOf, varOf, pr[k]) {
      assert st[i] in pr[..k];
      var j :| 0 <= j < k && pr[j] == st[i];
    }
  }

  lemma FilteredStable(nameOf: seq<Arg>, varOf: map<Arg, nat>, f: Framework, pr: seq<seq<nat>>, st: seq<seq<nat>>)
    requires Filtered(nameOf, varOf, f, pr, |pr|, st) && ListsExactly(nameOf, varOf, pr, PreferredExts(f)) && Wf(f)
    ensures ListsExactly(nameOf, varOf, st, StableExts(f))
  {
    hide ArgsOf, Range, Preferred, Stable;
    assert pr[..|pr|] == pr;
    forall j | 0 <= j < |st| ensures ArgsOf(nameOf, varOf, st[j]) in StableExts(f) {
      assert st[j] in st && st[j] in pr;
      FullRangeIsStable(f, ArgsOf(nameOf, varOf, st[j]));
    }
    forall s | s in StableExts(f) ensures exists j :: 0 <= j < |st| && ArgsOf(nameOf, varOf, st[j]) == s {
      FullRangeIsStable(f, s);
      assert s in PreferredExts(f);
      var k :| 0 <= k < |pr| && ArgsOf(nameOf, varOf, pr[k]) == s;
      assert pr[k] in st;
    }
  }

  /** The grounded extension from the attacks, the preferred ones from the encoding, and the stable
      ones among these, for a framework without changes. */
  method Triathlon(nameOf: seq<Arg>, varOf: map<Arg, nat>, attacks: Attacks) returns (gr: seq<nat>, st: seq<seq<nat>>, pr: seq<seq<nat>>)
    requires Numbered(nameOf, varOf) && attacks.Valid() && attacks.dynAttacks == [] && DeclaredIn(nameOf, attacks.initial, [])
    ensures var f := Framework((set a | a in nameOf), attacks.initial);
      && (forall v :: 0 <= v < |nameOf| ==> (v in gr <==> nameOf[v] in Grounded(f)))
      && ListsExactly(nameOf, varOf, pr, PreferredExts(f)) && ListsExactly(nameOf, varOf, st, StableExts(f))
    ensures EachOnce(gr, |nameOf|) && forall x :: x in pr || x in st ==> EachOnce(x, |nameOf|)
  {
    hide EachOnce, AllOwned, Declared, CompleteEncoding, TheoryOf, Query, Merges, NothingMissed, AllDifferent, MssOk, Satisfiable, Grounded, Preferred, Filtered, ListsExactly, Range, PreferredExts, StableExts, Stable, ClausesBelow, Apart;
    ghost var f := Framework((set a | a in nameOf), attacks.initial);
    NumberedInput(nameOf, varOf);
    NumberedMerges(nameOf, varOf, f);
    StaticPairs(attacks.attacks, attacks.initial, nameOf, varOf);
    var utils := new ExtensionUtils(nameOf, varOf, attacks.attacks);
    gr := utils.GroundedExtension();
    var h, unused := PreferredQuery(nameOf, varOf, |nameOf|, attacks, -1);
    ghost var e := h.EncNow();
    MergesPlain(e, nameOf, varOf, f);
    NoChangesNoDyn(h.dynVars);
    NoSwitches(e, h.owner, |nameOf|, unused, attacks.initial);
    NothingBelow(h.nbVars);
    var ok, msses := ComputeMsses(h.nbVars, h.clauses, h.softs, [], 0);
    assert ok by { QuerySatisfiable(e, h.owner, |nameOf|, [], attacks.initial); }
    pr := seq(|msses|, j requires 0 <= j < |msses| => msses[j].ids);
    ReportsPreferred(e, h.owner, |nameOf|, [], attacks.initial, msses, pr);
    ReportsOnce(TheoryOf(h.clauses), |nameOf|, [], msses, pr);
    st := [];
    var i := 0;
    FilteredNone(nameOf, varOf, f, pr);
    while i < |msses|
      modifies {}
      invariant 0 <= i <= |msses| && Filtered(nameOf, varOf, f, pr, i, st)
    {
      assert msses[i] in msses;
      ReportInRange(TheoryOf(h.clauses), [], |nameOf|, msses[i]);
      IdsAreNames(nameOf, varOf, msses[i].ids);
      var full := utils.IsMaxRange(msses[i].ids);
      ghost var st0 := st;
      if full { st := st + [msses[i].ids]; }
      FilteredNext(nameOf, varOf, f, pr, i, st0, st);
      i := i + 1;
    }
    FilteredStable(nameOf, varOf, f, pr, st);
    FilteredFrom(nameOf, varOf, f, pr, |pr|, st);
  }

  lemma FilteredFrom(nameOf: seq<Arg>, varOf: map<Arg, nat>, f: Framework, pr: seq<seq<nat>>, k: nat, st: seq<seq<nat>>)
    requires k <= |pr| && Filtered(nameOf, varOf, f, pr, k, st)
    ensures forall x :: x in st ==> x in pr
  {
    hide FullRange, Apart;
  }

  lemma NothingBelow(n: nat)
    ensures ClausesBelow([[]], n)
  {
  }

  lemma FilteredNone(nameOf: seq<Arg>, varOf: map<Arg, nat>, f: Framework, pr: seq<seq<nat>>)
    ensures Filtered(nameOf, varOf, f, pr, 0, [])
  {
  }

  lemma ReportInRange(theory: Theory, a: seq<Lit>, n: nat, x: Mss)
    requires MssOk(theory, a, ExtensionSofts(n), x)
    ensures forall v :: v in x.ids ==> v < n
  {
    MssIds(theory, a, n, Ids(x));
    forall v | v in x.ids ensures v < n { assert v in Ids(x); }
  }
}
