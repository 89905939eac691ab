/** The clauses that encode a framework, and what they say. */
module Encoding {
  import opened Cnf
  import opened Argumentation
  import opened AttackStore

  /** The variables of a changing attack: one stands for the attacker while the attack is on, one for
      the attacker not being attacked while the attack is on, and one switches the attack on. */
  datatype DynVar = DynVar(from: Arg, to: Arg, fromRepl: nat, notAttackedRepl: nat, assump: nat)

  /** Everything the clauses depend on: arguments and their variables, the stored attacks, the
      variable telling that an argument is attacked, and the changing attacks. */
  datatype Enc = Enc(names: seq<Arg>, varOf: map<Arg, nat>, attacks: map<Arg, seq<Arg>>, disj: map<Arg, nat>, dyn: seq<DynVar>) {
    function X(a: Arg): nat {
      if a in varOf then varOf[a] else 0
    }

    function P(a: Arg): nat {
      if a in disj then disj[a] else 0
    }

    /** The variable that stands for attacker `b` of `a`. */
    function Attacker(b: Arg, a: Arg): nat {
      match Find(dyn, b, a)
      case Some(d) => d.fromRepl
      case None => X(b)
    }

    /** The literal saying that attacker `b` does not threaten `a`: it is attacked, or the attack is off. */
    function Answer(b: Arg, a: Arg): Lit {
      match Find(dyn, b, a)
      case Some(d) => Neg(d.notAttackedRepl)
      case None => Pos(P(b))
    }
  }

  function Pos(v: nat): Lit {
    Lit(v, false)
  }

  function Neg(v: nat): Lit {
    Lit(v, true)
  }

  /** The first entry for the attack of `from` on `to`. */
  function Find(dyn: seq<DynVar>, from: Arg, to: Arg): Option<DynVar> {
    if dyn == [] then None
    else if dyn[0].from == from && dyn[0].to == to then Some(dyn[0])
    else Find(dyn[1..], from, to)
  }

  lemma {:induction false} FindMeans(dyn: seq<DynVar>, from: Arg, to: Arg)
    ensures var r := Find(dyn, from, to);
      && (r.Some? ==> r.value in dyn && r.value.from == from && r.value.to == to)
      && (r.None? ==> forall d :: d in dyn ==> !(d.from == from && d.to == to))
  {
    if dyn != [] && !(dyn[0].from == from && dyn[0].to == to) { FindMeans(dyn[1..], from, to); }
  }

  // ----- clause lists -----

  function All(names: seq<Arg>, f: Arg -> seq<Clause>): seq<Clause> {
    if names == [] then [] else All(names[..|names| - 1], f) + f(names[|names| - 1])
  }

  lemma {:induction false} AllHas(names: seq<Arg>, f: Arg -> seq<Clause>, c: Clause)
    ensures c in All(names, f) <==> exists a :: a in names && c in f(a)
  {
    if names != [] {
      AllHas(names[..|names| - 1], f, c);
      assert names == names[..|names| - 1] + [names[|names| - 1]];
    }
  }

  ghost predicate Holds(m: Assignment, cs: seq<Clause>) {
    forall c :: c in cs ==> Sat(m, Lits(c))
  }

  lemma SatIs(m: Assignment, c: Clause)
    ensures Sat(m, Lits(c)) <==> exists l :: l in c && True(m, l)
  {
  }

  lemma HoldsPlus(m: Assignment, cs: seq<Clause>, ds: seq<Clause>)
    ensures Holds(m, cs + ds) <==> Holds(m, cs) && Holds(m, ds)
  {
  }

  lemma HoldsAll(m: Assignment, names: seq<Arg>, f: Arg -> seq<Clause>)
    ensures Holds(m, All(names, f)) <==> forall a :: a in names ==> Holds(m, f(a))
  {
    if Holds(m, All(names, f)) {
      forall a, c | a in names && c in f(a) ensures Sat(m, Lits(c)) { AllHas(names, f, c); }
    }
    if forall a :: a in names ==> Holds(m, f(a)) {
      forall c | c in All(names, f) ensures Sat(m, Lits(c)) { AllHas(names, f, c); }
    }
  }

  // ----- a changing attack -----

  function ReplClauses(e: Enc, d: DynVar): seq<Clause> {
    [[Neg(d.fromRepl), Pos(e.X(d.from))], [Neg(d.fromRepl), Pos(d.assump)], [Pos(d.fromRepl), Neg(e.X(d.from)), Neg(d.assump)]]
  }

  function NotAttackedClauses(e: Enc, d: DynVar): seq<Clause> {
    [[Neg(d.notAttackedRepl), Neg(e.P(d.from))], [Neg(d.notAttackedRepl), Pos(d.assump)],
     [Pos(d.notAttackedRepl), Pos(e.P(d.from)), Neg(d.assump)]]
  }

  function DynClauses(e: Enc, d: DynVar, reserve: bool): seq<Clause> {
    ReplClauses(e, d) + if reserve then NotAttackedClauses(e, d) else []
  }

  ghost predicate DynMeans(e: Enc, m: Assignment, d: DynVar, reserve: bool) {
    && (m(d.fromRepl) <==> m(e.X(d.from)) && m(d.assump))
    && (reserve ==> (m(d.notAttackedRepl) <==> !m(e.P(d.from)) && m(d.assump)))
  }

  lemma DynMeaning(e: Enc, m: Assignment, d: DynVar, reserve: bool)
    ensures Holds(m, DynClauses(e, d, reserve)) <==> DynMeans(e, m, d, reserve)
  {
    var r, n := ReplClauses(e, d), NotAttackedClauses(e, d);
    HoldsPlus(m, r, if reserve then n else []);
    HoldsThree(m, r);
    HoldsThree(m, n);
    SatTwo(m, r[0]); SatTwo(m, r[1]); SatThree(m, r[2]);
    SatTwo(m, n[0]); SatTwo(m, n[1]); SatThree(m, n[2]);
  }

  lemma HoldsThree(m: Assignment, cs: seq<Clause>)
    requires |cs| == 3
    ensures Holds(m, cs) <==> Sat(m, Lits(cs[0])) && Sat(m, Lits(cs[1])) && Sat(m, Lits(cs[2]))
  {
    hide Sat;
  }

  lemma SatTwo(m: Assignment, c: Clause)
    requires |c| == 2
    ensures Sat(m, Lits(c)) <==> True(m, c[0]) || True(m, c[1])
  {
    SatIs(m, c);
  }

  lemma SatThree(m: Assignment, c: Clause)
    requires |c| == 3
    ensures Sat(m, Lits(c)) <==> True(m, c[0]) || True(m, c[1]) || True(m, c[2])
  {
    SatIs(m, c);
  }

  lemma SatMore(m: Assignment, l: Lit, rest: Clause)
    ensures Sat(m, Lits([l] + rest)) <==> True(m, l) || exists k :: 0 <= k < |rest| && True(m, rest[k])
  {
    SatIs(m, [l] + rest);
    if exists q :: q in [l] + rest && True(m, q) {
      var q :| q in [l] + rest && True(m, q);
      assert q != l ==> q in rest;
    }
  }

  // ----- being attacked -----

  function AttackerClauses(e: Enc, a: Arg, bs: seq<Arg>): seq<Clause> {
    seq(|bs|, i requires 0 <= i < |bs| => [Pos(e.P(a)), Neg(e.Attacker(bs[i], a))])
  }

  function Attackers(e: Enc, a: Arg, bs: seq<Arg>): seq<Lit> {
    seq(|bs|, i requires 0 <= i < |bs| => Pos(e.Attacker(bs[i], a)))
  }

  /** `P(a)` holds exactly when an attacker of `a` does, and not together with `a`. */
  function DisjunctionClauses(e: Enc, a: Arg): seq<Clause> {
    var bs := To(e.attacks, a);
    [[Neg(e.X(a)), Neg(e.P(a))]] + AttackerClauses(e, a, bs) + [[Neg(e.P(a))] + Attackers(e, a, bs)]
  }

  ghost predicate SomeAttacker(e: Enc, m: Assignment, a: Arg) {
    exists b :: b in To(e.attacks, a) && m(e.Attacker(b, a))
  }

  ghost predicate DisjMeans(e: Enc, m: Assignment, a: Arg) {
    && !(m(e.X(a)) && m(e.P(a)))
    && (m(e.P(a)) <==> SomeAttacker(e, m, a))
  }

  lemma AttackerMeaning(e: Enc, m: Assignment, a: Arg)
    ensures (exists k :: 0 <= k < |Attackers(e, a, To(e.attacks, a))| && True(m, Attackers(e, a, To(e.attacks, a))[k])) <==> SomeAttacker(e, m, a)
  {
    var bs := To(e.attacks, a);
    if SomeAttacker(e, m, a) {
      var b :| b in bs && m(e.Attacker(b, a));
      var k :| 0 <= k < |bs| && bs[k] == b;
      assert True(m, Attackers(e, a, bs)[k]);
    }
    if k :| 0 <= k < |Attackers(e, a, bs)| && True(m, Attackers(e, a, bs)[k]) {
      assert bs[k] in bs && m(e.Attacker(bs[k], a));
    }
  }

  lemma DisjMeaning(e: Enc, m: Assignment, a: Arg)
    ensures Holds(m, DisjunctionClauses(e, a)) <==> DisjMeans(e, m, a)
  {
    hide Sat, Holds, SomeAttacker;
    var bs := To(e.attacks, a);
    var c0, cs, c1 := [Neg(e.X(a)), Neg(e.P(a))], AttackerClauses(e, a, bs), [Neg(e.P(a))] + Attackers(e, a, bs);
    HoldsPlus(m, [c0] + cs, [c1]);
    HoldsPlus(m, [c0], cs);
    HoldsOne(m, c0);
    HoldsOne(m, c1);
    SatTwo(m, c0);
    SatMore(m, Neg(e.P(a)), Attackers(e, a, bs));
    AttackerMeaning(e, m, a);
    ImplyEach(e, m, a);
  }

  lemma HoldsOne(m: Assignment, c: Clause)
    ensures Holds(m, [c]) <==> Sat(m, Lits(c))
  {
    hide Sat;
    assert c in [c];
  }

  lemma ImplyEach(e: Enc, m: Assignment, a: Arg)
    ensures Holds(m, AttackerClauses(e, a, To(e.attacks, a))) <==> (SomeAttacker(e, m, a) ==> m(e.P(a)))
  {
    var bs := To(e.attacks, a);
    var cs := AttackerClauses(e, a, bs);
    forall i | 0 <= i < |bs| ensures cs[i] in cs && (Sat(m, Lits(cs[i])) <==> m(e.P(a)) || !m(e.Attacker(bs[i], a))) { SatTwo(m, cs[i]); }
    if Holds(m, cs) && SomeAttacker(e, m, a) {
      var b :| b in bs && m(e.Attacker(b, a));
      var i :| 0 <= i < |bs| && bs[i] == b;
      assert Sat(m, Lits(cs[i]));
    }
    if SomeAttacker(e, m, a) ==> m(e.P(a)) {
      forall c | c in cs ensures Sat(m, Lits(c)) {
        var i :| 0 <= i < |cs| && cs[i] == c;
        assert bs[i] in bs;
      }
    }
  }

  // ----- complete sets -----

  function AnswerClauses(e: Enc, a: Arg, bs: seq<Arg>): seq<Clause> {
    seq(|bs|, i requires 0 <= i < |bs| => [Neg(e.X(a)), e.Answer(bs[i], a)])
  }

  function NotAnswers(e: Enc, a: Arg, bs: seq<Arg>): seq<Lit> {
    seq(|bs|, i requires 0 <= i < |bs| => e.Answer(bs[i], a).Not())
  }

  /** `a` is in exactly when all its attackers are answered. */
  function CompleteClauses(e: Enc, a: Arg): seq<Clause> {
    var bs := To(e.attacks, a);
    AnswerClauses(e, a, bs) + [[Pos(e.X(a))] + NotAnswers(e, a, bs)]
  }

  ghost predicate Answered(e: Enc, m: Assignment, a: Arg) {
    forall b :: b in To(e.attacks, a) ==> True(m, e.Answer(b, a))
  }

  lemma CompleteMeaning(e: Enc, m: Assignment, a: Arg)
    ensures Holds(m, CompleteClauses(e, a)) <==> (m(e.X(a)) <==> Answered(e, m, a))
  {
    var bs := To(e.attacks, a);
    var cs, c1 := AnswerClauses(e, a, bs), [Pos(e.X(a))] + NotAnswers(e, a, bs);
    HoldsPlus(m, cs, [c1]);
    HoldsOne(m, c1);
    SatMore(m, Pos(e.X(a)), NotAnswers(e, a, bs));
    forall i | 0 <= i < |bs|
      ensures cs[i] in cs && (Sat(m, Lits(cs[i])) <==> !m(e.X(a)) || True(m, e.Answer(bs[i], a)))
      ensures True(m, NotAnswers(e, a, bs)[i]) <==> !True(m, e.Answer(bs[i], a))
    {
      SatTwo(m, cs[i]);
    }
    assert Answered(e, m, a) <==> forall i :: 0 <= i < |bs| ==> True(m, e.Answer(bs[i], a));
  }

  // ----- conflict-free and stable sets -----

  function ConflictFreeClauses(e: Enc, a: Arg): seq<Clause> {
    var bs := To(e.attacks, a);
    seq(|bs|, i requires 0 <= i < |bs| => [Neg(e.X(a)), Neg(e.Attacker(bs[i], a))])
  }

  lemma ConflictFreeMeaning(e: Enc, m: Assignment, a: Arg)
    ensures Holds(m, ConflictFreeClauses(e, a)) <==> (m(e.X(a)) ==> !SomeAttacker(e, m, a))
  {
    var bs, cs := To(e.attacks, a), ConflictFreeClauses(e, a);
    forall i | 0 <= i < |bs| ensures cs[i] in cs && (Sat(m, Lits(cs[i])) <==> !m(e.X(a)) || !m(e.Attacker(bs[i], a))) {
      SatTwo(m, cs[i]);
    }
    assert SomeAttacker(e, m, a) <==> exists i :: 0 <= i < |bs| && m(e.Attacker(bs[i], a));
  }

  /** One clause per attacker; a single literal when the attacker is the argument itself. */
  function ExcludeClauses(e: Enc, a: Arg, bs: seq<Arg>): seq<Clause> {
    seq(|bs|, i requires 0 <= i < |bs| =>
      [Neg(e.X(a))] + if e.X(a) != e.Attacker(bs[i], a) then [Neg(e.Attacker(bs[i], a))] else [])
  }

  function OtherAttackers(e: Enc, a: Arg, bs: seq<Arg>): seq<Lit> {
    if bs == [] then []
    else
      OtherAttackers(e, a, bs[..|bs| - 1])
      + if e.X(a) != e.Attacker(bs[|bs| - 1], a) then [Pos(e.Attacker(bs[|bs| - 1], a))] else []
  }

  function StableClauses(e: Enc, a: Arg): seq<Clause> {
    var bs := To(e.attacks, a);
    ExcludeClauses(e, a, bs) + [[Pos(e.X(a))] + OtherAttackers(e, a, bs)]
  }

  lemma {:induction false} OtherAttackersHas(e: Enc, a: Arg, bs: seq<Arg>, l: Lit)
    ensures l in OtherAttackers(e, a, bs) <==> exists b :: b in bs && l == Pos(e.Attacker(b, a)) && e.X(a) != e.Attacker(b, a)
  {
    if bs != [] {
      OtherAttackersHas(e, a, bs[..|bs| - 1], l);
      assert bs == bs[..|bs| - 1] + [bs[|bs| - 1]];
    }
  }

  lemma StableMeaning(e: Enc, m: Assignment, a: Arg)
    ensures Holds(m, StableClauses(e, a)) <==> (m(e.X(a)) <==> !SomeAttacker(e, m, a))
  {
    var bs := To(e.attacks, a);
    var cs, c1 := ExcludeClauses(e, a, bs), [Pos(e.X(a))] + OtherAttackers(e, a, bs);
    HoldsPlus(m, cs, [c1]);
    HoldsOne(m, c1);
    SatMore(m, Pos(e.X(a)), OtherAttackers(e, a, bs));
    forall i | 0 <= i < |bs| ensures cs[i] in cs && (Sat(m, Lits(cs[i])) <==> !m(e.X(a)) || !m(e.Attacker(bs[i], a))) {
      if e.X(a) != e.Attacker(bs[i], a) {
        SatTwo(m, cs[i]);
      } else {
        assert cs[i] == [Neg(e.X(a))];
        SatIs(m, cs[i]);
        assert Neg(e.X(a)) in cs[i];
      }
    }
    assert SomeAttacker(e, m, a) <==> exists i :: 0 <= i < |bs| && m(e.Attacker(bs[i], a));
    OthersTrue(e, m, a);
  }

  lemma OthersTrue(e: Enc, m: Assignment, a: Arg)
    ensures var ls := OtherAttackers(e, a, To(e.attacks, a));
      m(e.X(a)) || (exists k :: 0 <= k < |ls| && True(m, ls[k])) <==> m(e.X(a)) || SomeAttacker(e, m, a)
  {
    var bs := To(e.attacks, a);
    var ls := OtherAttackers(e, a, bs);
    if k :| 0 <= k < |ls| && True(m, ls[k]) { OtherAttackersHas(e, a, bs, ls[k]); }
    if !m(e.X(a)) && SomeAttacker(e, m, a) {
      var b :| b in bs && m(e.Attacker(b, a));
      OtherAttackersHas(e, a, bs, Pos(e.Attacker(b, a)));
      var k :| 0 <= k < |ls| && ls[k] == Pos(e.Attacker(b, a));
    }
  }
}
