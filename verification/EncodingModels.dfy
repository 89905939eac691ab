/** The models of the encodings are the extensions of the framework that the switches select. */
module EncodingModels {
  import opened Cnf
  import opened Argumentation
  import opened AttackStore
  import opened Encoding

  ghost function Ext(e: Enc, m: Assignment): set<Arg> {
    set a | a in e.names && m(e.X(a))
  }

  ghost function Names(e: Enc): set<Arg> {
    set a | a in e.names
  }

  ghost function At(e: Enc, r: set<Attack>): Framework {
    Framework(Names(e), r)
  }

  /** `r` keeps the attacks that have no switch, and adds no attack that is not stored. */
  ghost predicate Selects(e: Enc, r: set<Attack>) {
    && (forall p :: p in r ==> p in Pairs(e.attacks))
    && (forall p :: p in Pairs(e.attacks) && Find(e.dyn, p.0, p.1).None? ==> p in r)
  }

  /** The switches are on for the attacks in `r`. */
  ghost predicate Switched(e: Enc, m: Assignment, r: set<Attack>) {
    forall d :: d in e.dyn ==> (m(d.assump) <==> (d.from, d.to) in r)
  }

  /** Every attack is between declared arguments. */
  ghost predicate Declared(e: Enc) {
    && (forall p :: p in Pairs(e.attacks) ==> p.0 in e.names && p.1 in e.names)
    && (forall d :: d in e.dyn ==> d.from in e.names && d.to in e.names)
  }

  ghost predicate DynModel(e: Enc, m: Assignment, reserve: bool) {
    forall d :: d in e.dyn ==> DynMeans(e, m, d, reserve)
  }

  /** `P(a)` says that some attacker variable of `a` is true. */
  ghost predicate DisjModel(e: Enc, m: Assignment) {
    forall a :: a in e.names ==> (m(e.P(a)) <==> SomeAttacker(e, m, a))
  }

  lemma AttackerActive(e: Enc, m: Assignment, r: set<Attack>, b: Arg, a: Arg, reserve: bool)
    requires Selects(e, r) && Switched(e, m, r) && DynModel(e, m, reserve) && b in To(e.attacks, a)
    ensures m(e.Attacker(b, a)) <==> m(e.X(b)) && (b, a) in r
  {
    FindMeans(e.dyn, b, a);
    PairsTo(e.attacks, b, a);
    var d := Find(e.dyn, b, a);
    assert d.Some? ==> DynMeans(e, m, d.value, reserve);
  }

  lemma SomeAttackerMeans(e: Enc, m: Assignment, r: set<Attack>, a: Arg, reserve: bool)
    requires Selects(e, r) && Switched(e, m, r) && Declared(e) && DynModel(e, m, reserve)
    ensures SomeAttacker(e, m, a) <==> Attacked(At(e, r), Ext(e, m), a)
  {
    if SomeAttacker(e, m, a) {
      var b :| b in To(e.attacks, a) && m(e.Attacker(b, a));
      AttackerActive(e, m, r, b, a, reserve);
      PairsTo(e.attacks, b, a);
      assert b in Ext(e, m) && (b, a) in At(e, r).attacks;
    }
    if Attacked(At(e, r), Ext(e, m), a) {
      var b :| b in Ext(e, m) && (b, a) in r;
      PairsTo(e.attacks, b, a);
      AttackerActive(e, m, r, b, a, reserve);
    }
  }

  lemma AnswerActive(e: Enc, m: Assignment, r: set<Attack>, b: Arg, a: Arg)
    requires Selects(e, r) && Switched(e, m, r) && Declared(e) && DynModel(e, m, true) && DisjModel(e, m) && b in To(e.attacks, a)
    ensures True(m, e.Answer(b, a)) <==> ((b, a) in r ==> Attacked(At(e, r), Ext(e, m), b))
  {
    FindMeans(e.dyn, b, a);
    PairsTo(e.attacks, b, a);
    SomeAttackerMeans(e, m, r, b, true);
    var d := Find(e.dyn, b, a);
    assert d.Some? ==> DynMeans(e, m, d.value, true);
  }

  lemma AnsweredMeans(e: Enc, m: Assignment, r: set<Attack>, a: Arg)
    requires Selects(e, r) && Switched(e, m, r) && Declared(e) && DynModel(e, m, true) && DisjModel(e, m)
    ensures Answered(e, m, a) <==> Defends(At(e, r), Ext(e, m), a)
  {
    if Answered(e, m, a) {
      forall b | (b, a) in r ensures Attacked(At(e, r), Ext(e, m), b) {
        PairsTo(e.attacks, b, a);
        AnswerActive(e, m, r, b, a);
      }
    }
    if Defends(At(e, r), Ext(e, m), a) {
      forall b | b in To(e.attacks, a) ensures True(m, e.Answer(b, a)) {
        AnswerActive(e, m, r, b, a);
      }
    }
  }

  // ----- the three encodings -----

  function AllDyn(e: Enc, dyn: seq<DynVar>, reserve: bool): seq<Clause> {
    if dyn == [] then [] else AllDyn(e, dyn[..|dyn| - 1], reserve) + DynClauses(e, dyn[|dyn| - 1], reserve)
  }

  function DisjunctionAll(e: Enc): seq<Clause> {
    All(e.names, a => DisjunctionClauses(e, a))
  }

  function CompleteAll(e: Enc): seq<Clause> {
    All(e.names, a => CompleteClauses(e, a))
  }

  function ConflictFreeAll(e: Enc): seq<Clause> {
    All(e.names, a => ConflictFreeClauses(e, a))
  }

  function StableAll(e: Enc): seq<Clause> {
    All(e.names, a => StableClauses(e, a))
  }

  function AttackedEncoding(e: Enc): seq<Clause> {
    AllDyn(e, e.dyn, true) + DisjunctionAll(e)
  }

  function CompleteEncoding(e: Enc): seq<Clause> {
    AttackedEncoding(e) + CompleteAll(e)
  }

  function ConflictFreeEncoding(e: Enc): seq<Clause> {
    AttackedEncoding(e) + ConflictFreeAll(e)
  }

  function StableEncoding(e: Enc): seq<Clause> {
    AllDyn(e, e.dyn, false) + StableAll(e)
  }

  lemma {:induction false} DynHolds(e: Enc, m: Assignment, dyn: seq<DynVar>, reserve: bool)
    ensures Holds(m, AllDyn(e, dyn, reserve)) <==> forall d :: d in dyn ==> DynMeans(e, m, d, reserve)
  {
    hide Holds, DynMeans;
    if dyn == [] {
      HoldsNone(m);
    } else {
      var front, d := dyn[..|dyn| - 1], dyn[|dyn| - 1];
      DynHolds(e, m, front, reserve);
      HoldsPlus(m, AllDyn(e, front, reserve), DynClauses(e, d, reserve));
      DynMeaning(e, m, d, reserve);
      assert dyn == front + [d];
    }
  }

  lemma HoldsNone(m: Assignment)
    ensures Holds(m, [])
  {
  }

  /** What the clauses about changing attacks and about being attacked say. */
  lemma AttackedHolds(e: Enc, m: Assignment)
    ensures Holds(m, AttackedEncoding(e)) <==>
      DynModel(e, m, true) && DisjModel(e, m) && forall a :: a in e.names ==> !(m(e.X(a)) && m(e.P(a)))
  {
    hide Holds, DynMeans, SomeAttacker;
    HoldsPlus(m, AllDyn(e, e.dyn, true), DisjunctionAll(e));
    DynHolds(e, m, e.dyn, true);
    HoldsAll(m, e.names, a => DisjunctionClauses(e, a));
    forall a ensures Holds(m, DisjunctionClauses(e, a)) <==> DisjMeans(e, m, a) { DisjMeaning(e, m, a); }
  }

  ghost predicate Setting(e: Enc, m: Assignment, r: set<Attack>) {
    Selects(e, r) && Switched(e, m, r) && Declared(e)
  }

  /** Under the switches `r`, the models of the complete encoding describe complete extensions. */
  lemma CompleteIff(e: Enc, m: Assignment, r: set<Attack>)
    requires Setting(e, m, r) && DynModel(e, m, true) && DisjModel(e, m)
    ensures Holds(m, CompleteEncoding(e)) <==> Complete(At(e, r), Ext(e, m))
  {
    hide Holds, DynMeans, SomeAttacker, Attacked, Defends;
    AttackedHolds(e, m);
    HoldsPlus(m, AttackedEncoding(e), CompleteAll(e));
    HoldsAll(m, e.names, a => CompleteClauses(e, a));
    forall a
      ensures Holds(m, CompleteClauses(e, a)) <==> (m(e.X(a)) <==> Defends(At(e, r), Ext(e, m), a))
      ensures a in e.names ==> (m(e.P(a)) <==> Attacked(At(e, r), Ext(e, m), a))
    {
      CompleteMeaning(e, m, a);
      AnsweredMeans(e, m, r, a);
      SomeAttackerMeans(e, m, r, a, true);
    }
  }

  lemma ConflictFreeIff(e: Enc, m: Assignment, r: set<Attack>)
    requires Setting(e, m, r) && DynModel(e, m, true) && DisjModel(e, m)
    ensures Holds(m, ConflictFreeEncoding(e)) <==> ConflictFree(At(e, r), Ext(e, m))
  {
    hide Holds, DynMeans, SomeAttacker, Attacked;
    AttackedHolds(e, m);
    HoldsPlus(m, AttackedEncoding(e), ConflictFreeAll(e));
    HoldsAll(m, e.names, a => ConflictFreeClauses(e, a));
    forall a
      ensures Holds(m, ConflictFreeClauses(e, a)) <==> (m(e.X(a)) ==> !Attacked(At(e, r), Ext(e, m), a))
      ensures a in e.names ==> (m(e.P(a)) <==> Attacked(At(e, r), Ext(e, m), a))
    {
      ConflictFreeMeaning(e, m, a);
      SomeAttackerMeans(e, m, r, a, true);
    }
  }

  lemma StableIff(e: Enc, m: Assignment, r: set<Attack>)
    requires Setting(e, m, r) && DynModel(e, m, false)
    ensures Holds(m, StableEncoding(e)) <==> Stable(At(e, r), Ext(e, m))
  {
    hide Holds, DynMeans, SomeAttacker, Attacked;
    HoldsPlus(m, AllDyn(e, e.dyn, false), StableAll(e));
    DynHolds(e, m, e.dyn, false);
    HoldsAll(m, e.names, a => StableClauses(e, a));
    forall a ensures Holds(m, StableClauses(e, a)) <==> (m(e.X(a)) <==> !Attacked(At(e, r), Ext(e, m), a)) {
      StableMeaning(e, m, a);
      SomeAttackerMeans(e, m, r, a, false);
    }
  }

  // ----- every variable has one meaning -----

  datatype Owner = OfArg | OfDisj(a: Arg) | OfRepl(k: nat) | OfNotAttacked(k: nat) | OfSwitch(k: nat)

  ghost predicate ArgsOwned(e: Enc, owner: seq<Owner>) {
    && (forall a :: a in e.names ==> e.X(a) < |owner| && owner[e.X(a)] == OfArg)
    && (forall v :: 0 <= v < |owner| && owner[v] == OfArg ==> exists a :: a in e.names && e.X(a) == v)
  }

  ghost predicate DisjOwned(e: Enc, owner: seq<Owner>) {
    && (forall a :: a in e.names ==> e.P(a) < |owner| && owner[e.P(a)] == OfDisj(a))
    && (forall v :: 0 <= v < |owner| && owner[v].OfDisj? ==> owner[v].a in e.names && e.P(owner[v].a) == v)
  }

  ghost predicate DynOwned(e: Enc, owner: seq<Owner>, reserve: bool) {
    && (forall k :: 0 <= k < |e.dyn| ==> e.dyn[k].fromRepl < |owner| && owner[e.dyn[k].fromRepl] == OfRepl(k))
    && (forall k :: 0 <= k < |e.dyn| ==> e.dyn[k].assump < |owner| && owner[e.dyn[k].assump] == OfSwitch(k))
    && (reserve ==> forall k :: 0 <= k < |e.dyn| ==> e.dyn[k].notAttackedRepl < |owner| && owner[e.dyn[k].notAttackedRepl] == OfNotAttacked(k))
    && (forall v :: 0 <= v < |owner| && owner[v].OfRepl? ==> owner[v].k < |e.dyn| && e.dyn[owner[v].k].fromRepl == v)
    && (forall v :: 0 <= v < |owner| && owner[v].OfSwitch? ==> owner[v].k < |e.dyn| && e.dyn[owner[v].k].assump == v)
    && (forall v :: 0 <= v < |owner| && owner[v].OfNotAttacked? ==> reserve && owner[v].k < |e.dyn| && e.dyn[owner[v].k].notAttackedRepl == v)
  }

  ghost predicate AllOwned(e: Enc, owner: seq<Owner>, reserve: bool) {
    && ArgsOwned(e, owner) && DynOwned(e, owner, reserve)
    && (reserve ==> DisjOwned(e, owner))
    && (!reserve ==> forall v :: 0 <= v < |owner| ==> !owner[v].OfDisj?)
  }

  /** Arguments that share a variable are in `s` together. */
  ghost predicate Uniform(e: Enc, s: set<Arg>) {
    forall a, b :: a in e.names && b in e.names && e.X(a) == e.X(b) ==> (a in s <==> b in s)
  }

  /** The assignment that describes the set `s` in the framework with the attacks `r`. */
  ghost function Describe(e: Enc, owner: seq<Owner>, s: set<Arg>, r: set<Attack>): Assignment {
    (v: nat) =>
      if v >= |owner| then true
      else match owner[v]
        case OfArg => (exists a :: a in s && a in e.names && e.X(a) == v)
        case OfDisj(a) => Attacked(At(e, r), s, a)
        case OfRepl(k) => k < |e.dyn| && e.dyn[k].from in s && (e.dyn[k].from, e.dyn[k].to) in r
        case OfNotAttacked(k) => k < |e.dyn| && !Attacked(At(e, r), s, e.dyn[k].from) && (e.dyn[k].from, e.dyn[k].to) in r
        case OfSwitch(k) => k < |e.dyn| && (e.dyn[k].from, e.dyn[k].to) in r
  }

  lemma DescribesExt(e: Enc, owner: seq<Owner>, s: set<Arg>, r: set<Attack>)
    requires ArgsOwned(e, owner) && s <= Names(e) && Uniform(e, s)
    ensures Ext(e, Describe(e, owner, s, r)) == s
  {
    var m := Describe(e, owner, s, r);
    forall a | a in e.names ensures m(e.X(a)) <==> a in s {
      assert owner[e.X(a)] == OfArg;
    }
  }

  lemma DescribesSwitches(e: Enc, owner: seq<Owner>, s: set<Arg>, r: set<Attack>, reserve: bool)
    requires DynOwned(e, owner, reserve)
    ensures Switched(e, Describe(e, owner, s, r), r)
  {
    forall d | d in e.dyn ensures Describe(e, owner, s, r)(d.assump) <==> (d.from, d.to) in r {
      var k :| 0 <= k < |e.dyn| && e.dyn[k] == d;
    }
  }

  lemma DescribesOneDyn(e: Enc, owner: seq<Owner>, s: set<Arg>, r: set<Attack>, d: DynVar, reserve: bool)
    requires AllOwned(e, owner, reserve) && Declared(e) && d in e.dyn
    requires Switched(e, Describe(e, owner, s, r), r) && (Describe(e, owner, s, r)(e.X(d.from)) <==> d.from in s)
    ensures DynMeans(e, Describe(e, owner, s, r), d, reserve)
  {
    var k :| 0 <= k < |e.dyn| && e.dyn[k] == d;
    assert owner[d.fromRepl] == OfRepl(k);
    if reserve { assert owner[e.P(d.from)] == OfDisj(d.from) && owner[d.notAttackedRepl] == OfNotAttacked(k); }
  }

  lemma DescribesDyn(e: Enc, owner: seq<Owner>, s: set<Arg>, r: set<Attack>, reserve: bool)
    requires AllOwned(e, owner, reserve) && Declared(e) && s <= Names(e) && Uniform(e, s)
    ensures DynModel(e, Describe(e, owner, s, r), reserve)
  {
    var m := Describe(e, owner, s, r);
    DescribesExt(e, owner, s, r);
    DescribesSwitches(e, owner, s, r, reserve);
    forall d | d in e.dyn ensures DynMeans(e, m, d, reserve) {
      hide AllOwned, Uniform;
      assert m(e.X(d.from)) <==> d.from in s by { assert d.from in Ext(e, m) <==> m(e.X(d.from)); }
      DescribesOneDyn(e, owner, s, r, d, reserve);
    }
  }

  lemma DescribesDisj(e: Enc, owner: seq<Owner>, s: set<Arg>, r: set<Attack>)
    requires AllOwned(e, owner, true) && Selects(e, r) && Declared(e) && s <= Names(e) && Uniform(e, s)
    ensures DisjModel(e, Describe(e, owner, s, r))
  {
    var m := Describe(e, owner, s, r);
    DescribesExt(e, owner, s, r);
    DescribesSwitches(e, owner, s, r, true);
    DescribesDyn(e, owner, s, r, true);
    forall a | a in e.names ensures m(e.P(a)) <==> SomeAttacker(e, m, a) {
      SomeAttackerMeans(e, m, r, a, true);
      assert owner[e.P(a)] == OfDisj(a);
    }
  }

  /** Every complete extension, and nothing else, is described by a model. */
  lemma CompleteModels(e: Enc, owner: seq<Owner>, s: set<Arg>, r: set<Attack>)
    requires AllOwned(e, owner, true) && Selects(e, r) && Declared(e) && Uniform(e, s)
    ensures Complete(At(e, r), s) <==>
      exists m: Assignment :: Holds(m, CompleteEncoding(e)) && Switched(e, m, r) && Ext(e, m) == s
  {
    hide Holds, DynModel, DisjModel, AllOwned, Selects, Switched, Declared, Uniform;
    if Complete(At(e, r), s) {
      var m := Describe(e, owner, s, r);
      Described(e, owner, s, r);
      CompleteIff(e, m, r);
    }
    if m: Assignment :| Holds(m, CompleteEncoding(e)) && Switched(e, m, r) && Ext(e, m) == s {
      HoldsPlus(m, AttackedEncoding(e), CompleteAll(e));
      AttackedHolds(e, m);
      CompleteIff(e, m, r);
    }
  }

  lemma Described(e: Enc, owner: seq<Owner>, s: set<Arg>, r: set<Attack>)
    requires AllOwned(e, owner, true) && Selects(e, r) && Declared(e) && s <= Names(e) && Uniform(e, s)
    ensures var m := Describe(e, owner, s, r);
      Ext(e, m) == s && Switched(e, m, r) && DynModel(e, m, true) && DisjModel(e, m)
  {
    hide Uniform, Declared, Selects, DisjModel, DynModel, Switched;
    DescribesExt(e, owner, s, r);
    DescribesSwitches(e, owner, s, r, true);
    DescribesDyn(e, owner, s, r, true);
    DescribesDisj(e, owner, s, r);
  }

  /** Every conflict-free set, and nothing else, is described by a model. */
  lemma ConflictFreeModels(e: Enc, owner: seq<Owner>, s: set<Arg>, r: set<Attack>)
    requires AllOwned(e, owner, true) && Selects(e, r) && Declared(e) && Uniform(e, s)
    ensures ConflictFree(At(e, r), s) <==>
      exists m: Assignment :: Holds(m, ConflictFreeEncoding(e)) && Switched(e, m, r) && Ext(e, m) == s
  {
    hide Holds, DynModel, DisjModel, AllOwned, Selects, Switched, Declared, Uniform;
    if ConflictFree(At(e, r), s) {
      var m := Describe(e, owner, s, r);
      Described(e, owner, s, r);
      ConflictFreeIff(e, m, r);
    }
    if m: Assignment :| Holds(m, ConflictFreeEncoding(e)) && Switched(e, m, r) && Ext(e, m) == s {
      HoldsPlus(m, AttackedEncoding(e), ConflictFreeAll(e));
      AttackedHolds(e, m);
      ConflictFreeIff(e, m, r);
    }
  }

  /** Every stable extension, and nothing else, is described by a model. */
  lemma StableModels(e: Enc, owner: seq<Owner>, s: set<Arg>, r: set<Attack>)
    requires AllOwned(e, owner, false) && Selects(e, r) && Declared(e) && Uniform(e, s)
    ensures Stable(At(e, r), s) <==>
      exists m: Assignment :: Holds(m, StableEncoding(e)) && Switched(e, m, r) && Ext(e, m) == s
  {
    hide Holds, DynModel, Selects, Switched, Declared, Uniform, DynMeans;
    if Stable(At(e, r), s) {
      var m := Describe(e, owner, s, r);
      DescribesExt(e, owner, s, r);
      DescribesSwitches(e, owner, s, r, false);
      DescribesDyn(e, owner, s, r, false);
      StableIff(e, m, r);
    }
    if m: Assignment :| Holds(m, StableEncoding(e)) && Switched(e, m, r) && Ext(e, m) == s {
      HoldsPlus(m, AllDyn(e, e.dyn, false), StableAll(e));
      DynHolds(e, m, e.dyn, false);
      assert DynModel(e, m, false) by { DynModelIs(e, m, false); }
      StableIff(e, m, r);
    }
  }

  lemma DynModelIs(e: Enc, m: Assignment, reserve: bool)
    requires forall d :: d in e.dyn ==> DynMeans(e, m, d, reserve)
    ensures DynModel(e, m, reserve)
  {
  }

  /** Models of the same set under the same switches agree on every variable of the encoding. */
  lemma OneModel(e: Enc, owner: seq<Owner>, m: Assignment, m': Assignment, r: set<Attack>, v: nat)
    requires AllOwned(e, owner, true) && Selects(e, r) && Declared(e) && v < |owner|
    requires Holds(m, AttackedEncoding(e)) && Switched(e, m, r)
    requires Holds(m', AttackedEncoding(e)) && Switched(e, m', r)
    requires Ext(e, m) == Ext(e, m')
    ensures m(v) <==> m'(v)
  {
    hide Holds, Selects;
    AttackedHolds(e, m);
    AttackedHolds(e, m');
    forall a | a in e.names ensures (m(e.X(a)) <==> m'(e.X(a))) && (m(e.P(a)) <==> m'(e.P(a))) {
      SomeAttackerMeans(e, m, r, a, true);
      SomeAttackerMeans(e, m', r, a, true);
      assert a in Ext(e, m) <==> a in Ext(e, m');
    }
    SameDyn(e, m, m', r);
    match owner[v] {
      case OfArg => var a :| a in e.names && e.X(a) == v;
      case OfDisj(a) => assert e.P(a) == v;
      case OfRepl(k) => assert e.dyn[k].fromRepl == v;
      case OfNotAttacked(k) => assert e.dyn[k].notAttackedRepl == v;
      case OfSwitch(k) => assert e.dyn[k].assump == v;
    }
  }

  lemma SameDyn(e: Enc, m: Assignment, m': Assignment, r: set<Attack>)
    requires DynModel(e, m, true) && DynModel(e, m', true) && Switched(e, m, r) && Switched(e, m', r) && Declared(e)
    requires forall a :: a in e.names ==> (m(e.X(a)) <==> m'(e.X(a))) && (m(e.P(a)) <==> m'(e.P(a)))
    ensures forall k :: 0 <= k < |e.dyn| ==>
      && (m(e.dyn[k].assump) <==> m'(e.dyn[k].assump)) && (m(e.dyn[k].fromRepl) <==> m'(e.dyn[k].fromRepl))
      && (m(e.dyn[k].notAttackedRepl) <==> m'(e.dyn[k].notAttackedRepl))
  {
    forall k | 0 <= k < |e.dyn|
      ensures m(e.dyn[k].assump) <==> m'(e.dyn[k].assump)
      ensures m(e.dyn[k].fromRepl) <==> m'(e.dyn[k].fromRepl)
      ensures m(e.dyn[k].notAttackedRepl) <==> m'(e.dyn[k].notAttackedRepl)
    {
      assert e.dyn[k] in e.dyn;
      assert DynMeans(e, m, e.dyn[k], true) && DynMeans(e, m', e.dyn[k], true);
    }
  }
}
