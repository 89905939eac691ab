/** What unit propagation derives when no switch of a changing attack is set: the arguments that attacks which
    never change defend against every attack that may come about. */
module SwitchFree {
  import opened Cnf
  import opened Argumentation
  import opened AttackStore
  import opened Encoding
  import opened EncodingModels
  import opened EncodingBuilder
  import opened Encoders
  import opened Formulas
  import opened Derivation
  import opened GroundedSemantics
  import opened PreferredSemantics
  import opened IdealSemantics
  import opened DynamicEncoding

  // ----- threats and fixed attacks -----

  /** The stored attacks without a switch. */
  ghost function Fixed(e: Enc): set<Attack> {
    set p | p in Pairs(e.attacks) && Find(e.dyn, p.0, p.1).None?
  }

  ghost function SureArgs(e: Enc): set<Arg> {
    Sure(Names(e), Pairs(e.attacks), Fixed(e))
  }

  /** The arguments that a member of `s` attacks by a fixed attack. */
  ghost function Beaten(e: Enc, s: set<Arg>): set<Arg> {
    set b | b in e.names && exists c :: c in s && (c, b) in Fixed(e)
  }

  /** The sure arguments: exactly those whose stored attackers they all beat; they beat none of themselves. */
  ghost predicate Settled(e: Enc, s: set<Arg>) {
    && s <= Names(e) && s !! Beaten(e, s)
    && forall a :: a in e.names ==> (a in s <==> forall b :: b in To(e.attacks, a) ==> b in Beaten(e, s))
  }

  lemma SureSettled(e: Enc)
    requires Declared(e)
    ensures Settled(e, SureArgs(e))
  {
    var s, f := SureArgs(e), At(e, Pairs(e.attacks));
    SureLeast(Names(e), Pairs(e.attacks), Fixed(e));
    SureInside(f, Pairs(e.attacks), Fixed(e));
    GroundedLeast(f);
    forall b | b in s ensures b !in Beaten(e, s) {
      assert !Attacked(f, Grounded(f), b);
    }
    forall a | a in e.names ensures a in s <==> forall b :: b in To(e.attacks, a) ==> b in Beaten(e, s) {
      SureMeans(e, s, a);
    }
  }

  lemma SureMeans(e: Enc, s: set<Arg>, a: Arg)
    requires Declared(e) && a in e.names
    ensures SurelyDefends(Pairs(e.attacks), Fixed(e), s, a) <==> forall b :: b in To(e.attacks, a) ==> b in Beaten(e, s)
  {
    forall b ensures (b, a) in Pairs(e.attacks) <==> b in To(e.attacks, a) { PairsTo(e.attacks, b, a); }
  }

  // ----- a closed set -----

  /** Which literals are in: the sure arguments and what they beat, with the consequences for the other variables. */
  ghost predicate InClosure(e: Enc, owner: seq<Owner>, s: set<Arg>, l: Lit) {
    l.v < |owner| &&
    match owner[l.v]
    case OfArg => if l.neg then HasVar(e, Beaten(e, s), l.v) else HasVar(e, s, l.v)
    case OfDisj(a) => if l.neg then a in s else a in Beaten(e, s)
    case OfRepl(k) => l.neg && k < |e.dyn| && e.dyn[k].from in Beaten(e, s)
    case OfNotAttacked(k) => l.neg && k < |e.dyn| && e.dyn[k].from in Beaten(e, s)
    case OfSwitch(k) => false
  }

  ghost predicate HasVar(e: Enc, s: set<Arg>, v: nat) {
    exists a :: a in s && a in e.names && e.X(a) == v
  }

  ghost function Closure(e: Enc, owner: seq<Owner>, s: set<Arg>): iset<Lit> {
    iset l | InClosure(e, owner, s, l)
  }

  /** What the literals of `ts` say, variable by variable. */
  ghost predicate Reads(e: Enc, ts: iset<Lit>, s: set<Arg>, d: set<Arg>) {
    && (forall a :: a in e.names ==> (Pos(e.X(a)) in ts <==> a in s) && (Neg(e.X(a)) in ts <==> a in d))
    && (forall a :: a in e.names ==> (Pos(e.P(a)) in ts <==> a in d) && (Neg(e.P(a)) in ts <==> a in s))
    && (forall x :: x in e.dyn ==> Pos(x.fromRepl) !in ts && (Neg(x.fromRepl) in ts <==> x.from in d))
    && (forall x :: x in e.dyn ==> Pos(x.notAttackedRepl) !in ts && (Neg(x.notAttackedRepl) in ts <==> x.from in d))
    && (forall x :: x in e.dyn ==> Pos(x.assump) !in ts && Neg(x.assump) !in ts)
  }

  lemma ArgReads(e: Enc, owner: seq<Owner>, s: set<Arg>, a: Arg)
    requires ArgsOwned(e, owner) && DisjOwned(e, owner) && Uniform(e, s) && Uniform(e, Beaten(e, s)) && a in e.names
    ensures var d, ts := Beaten(e, s), Closure(e, owner, s);
      && (Pos(e.X(a)) in ts <==> a in s) && (Neg(e.X(a)) in ts <==> a in d)
      && (Pos(e.P(a)) in ts <==> a in d) && (Neg(e.P(a)) in ts <==> a in s)
  {
    hide Beaten;
    assert owner[e.X(a)] == OfArg && owner[e.P(a)] == OfDisj(a);
    assert a in s ==> HasVar(e, s, e.X(a));
    assert a in Beaten(e, s) ==> HasVar(e, Beaten(e, s), e.X(a));
  }

  lemma DynReads(e: Enc, owner: seq<Owner>, s: set<Arg>, x: DynVar)
    requires DynOwned(e, owner, true) && x in e.dyn
    ensures var d, ts := Beaten(e, s), Closure(e, owner, s);
      && Pos(x.fromRepl) !in ts && (Neg(x.fromRepl) in ts <==> x.from in d)
      && Pos(x.notAttackedRepl) !in ts && (Neg(x.notAttackedRepl) in ts <==> x.from in d)
      && Pos(x.assump) !in ts && Neg(x.assump) !in ts
  {
    hide Beaten;
    var k :| 0 <= k < |e.dyn| && e.dyn[k] == x;
    assert owner[x.fromRepl] == OfRepl(k) && owner[x.assump] == OfSwitch(k) && owner[x.notAttackedRepl] == OfNotAttacked(k);
  }

  lemma ClosureReads(e: Enc, owner: seq<Owner>, s: set<Arg>)
    requires AllOwned(e, owner, true) && Uniform(e, s) && Uniform(e, Beaten(e, s))
    ensures Reads(e, Closure(e, owner, s), s, Beaten(e, s))
  {
    hide Beaten, ArgsOwned, DisjOwned, DynOwned, Uniform, Closure;
    var d, ts := Beaten(e, s), Closure(e, owner, s);
    forall a | a in e.names
      ensures (Pos(e.X(a)) in ts <==> a in s) && (Neg(e.X(a)) in ts <==> a in d)
      ensures (Pos(e.P(a)) in ts <==> a in d) && (Neg(e.P(a)) in ts <==> a in s)
    {
      ArgReads(e, owner, s, a);
    }
    forall x | x in e.dyn
      ensures Pos(x.fromRepl) !in ts && (Neg(x.fromRepl) in ts <==> x.from in d)
      ensures Pos(x.notAttackedRepl) !in ts && (Neg(x.notAttackedRepl) in ts <==> x.from in d)
      ensures Pos(x.assump) !in ts && Neg(x.assump) !in ts
    {
      DynReads(e, owner, s, x);
    }
  }

  // ----- it is closed under every clause of the encoding -----

  /** What the closedness proofs know: variables of different kinds differ, and the set is read off the sure arguments. */
  ghost predicate Closing(e: Enc, owner: seq<Owner>, ts: iset<Lit>, s: set<Arg>, d: set<Arg>) {
    && AllOwned(e, owner, true) && Declared(e)
    && Settled(e, s) && d == Beaten(e, s) && Reads(e, ts, s, d)
  }

  lemma TwoClosed(ts: iset<Lit>, c: Clause)
    requires |c| == 2 && c[0] != c[1]
    requires (c[0].Not() in ts ==> c[1] in ts) && (c[1].Not() in ts ==> c[0] in ts)
    ensures ClosedUnder(ts, Lits(c))
  {
    forall l | l in Lits(c) && (forall q :: q in Lits(c) && q != l ==> q.Not() in ts) ensures l in ts {
      assert c[0] in Lits(c) && c[1] in Lits(c);
    }
  }

  lemma ThreeClosed(ts: iset<Lit>, c: Clause)
    requires |c| == 3 && c[0] != c[1] && c[0] != c[2] && c[1] != c[2]
    requires c[1].Not() in ts && c[2].Not() in ts ==> c[0] in ts
    requires c[0].Not() in ts && c[2].Not() in ts ==> c[1] in ts
    requires c[0].Not() in ts && c[1].Not() in ts ==> c[2] in ts
    ensures ClosedUnder(ts, Lits(c))
  {
    forall l | l in Lits(c) && (forall q :: q in Lits(c) && q != l ==> q.Not() in ts) ensures l in ts {
      assert c[0] in Lits(c) && c[1] in Lits(c) && c[2] in Lits(c);
    }
  }

  /** No switch is set, so the clauses of a changing attack say no more than that a beaten attacker stands for nothing. */
  lemma DynClosed(e: Enc, owner: seq<Owner>, ts: iset<Lit>, s: set<Arg>, d: set<Arg>, x: DynVar, c: Clause)
    requires Closing(e, owner, ts, s, d) && x in e.dyn && (c in ReplClauses(e, x) || c in NotAttackedClauses(e, x))
    ensures ClosedUnder(ts, Lits(c))
  {
    hide AllOwned, Settled, Beaten, ClosedUnder;
    DeclaredDyn(e, x);
    DynApart(e, owner, x, x.from);
    SureApart(e, s, d, x.from) by { SettledApart(e, s); }
    var r, n := ReplClauses(e, x), NotAttackedClauses(e, x);
    TwoClosed(ts, r[0]);
    TwoClosed(ts, r[1]);
    ThreeClosed(ts, r[2]);
    TwoClosed(ts, n[0]);
    TwoClosed(ts, n[1]);
    ThreeClosed(ts, n[2]);
  }

  lemma SettledApart(e: Enc, s: set<Arg>)
    requires Settled(e, s)
    ensures s !! Beaten(e, s)
  {
  }

  lemma SureApart(e: Enc, s: set<Arg>, d: set<Arg>, a: Arg)
    requires s !! d
    ensures !(a in s && a in d)
  {
  }

  /** The variable of an attacker is false in the set exactly when the attacker is beaten; it is true when it is sure and the attack fixed. */
  lemma AttackerReads(e: Enc, owner: seq<Owner>, ts: iset<Lit>, s: set<Arg>, d: set<Arg>, b: Arg, a: Arg)
    requires Closing(e, owner, ts, s, d) && b in To(e.attacks, a) && a in e.names
    ensures b in e.names && (Neg(e.Attacker(b, a)) in ts <==> b in d)
    ensures Pos(e.Attacker(b, a)) in ts <==> b in s && (b, a) in Fixed(e)
    ensures Pos(e.Attacker(b, a)) in ts ==> a in d
  {
    hide AllOwned, Settled;
    PairsTo(e.attacks, b, a);
    FindMeans(e.dyn, b, a);
  }

  lemma AnswerReads(e: Enc, owner: seq<Owner>, ts: iset<Lit>, s: set<Arg>, d: set<Arg>, b: Arg, a: Arg)
    requires Closing(e, owner, ts, s, d) && b in To(e.attacks, a) && a in e.names
    ensures b in e.names && (e.Answer(b, a) in ts <==> b in d) && e.Answer(b, a).v != e.X(a)
    ensures e.Answer(b, a).Not() in ts <==> b in s && (b, a) in Fixed(e)
    ensures e.Answer(b, a).Not() in ts ==> a in d
  {
    hide AllOwned, Settled;
    PairsTo(e.attacks, b, a);
    FindMeans(e.dyn, b, a);
    AnswerApart(e, owner, b, a);
  }

  /** A beaten argument has a sure attacker, by a fixed attack. */
  lemma BeatenBy(e: Enc, s: set<Arg>, a: Arg) returns (c: Arg)
    requires Declared(e) && a in Beaten(e, s)
    ensures c in s && (c, a) in Fixed(e) && c in To(e.attacks, a)
  {
    c :| c in s && (c, a) in Fixed(e);
    PairsTo(e.attacks, c, a);
  }

  lemma AttackerClosed(e: Enc, owner: seq<Owner>, ts: iset<Lit>, s: set<Arg>, d: set<Arg>, a: Arg, b: Arg)
    requires Closing(e, owner, ts, s, d) && a in e.names && b in To(e.attacks, a)
    ensures ClosedUnder(ts, Lits([Pos(e.P(a)), Neg(e.Attacker(b, a))]))
  {
    hide AllOwned, Beaten, ClosedUnder;
    AttackerReads(e, owner, ts, s, d, b, a);
    TwoClosed(ts, [Pos(e.P(a)), Neg(e.Attacker(b, a))]);
  }

  lemma SomeAttackerClosed(e: Enc, owner: seq<Owner>, ts: iset<Lit>, s: set<Arg>, d: set<Arg>, a: Arg)
    requires Closing(e, owner, ts, s, d) && a in e.names
    ensures ClosedUnder(ts, Lits([Neg(e.P(a))] + Attackers(e, a, To(e.attacks, a))))
  {
    hide AllOwned, Beaten, ClosedUnder;
    var bs, atts := To(e.attacks, a), Attackers(e, a, To(e.attacks, a));
    var c := [Neg(e.P(a))] + atts;
    forall b | b in bs ensures Pos(e.Attacker(b, a)) in c {
      var i :| 0 <= i < |bs| && bs[i] == b;
      assert atts[i] in c;
    }
    forall l | l in Lits(c) && (forall q :: q in Lits(c) && q != l ==> q.Not() in ts) ensures l in ts {
      if l == Neg(e.P(a)) {
        forall b | b in bs ensures b in d {
          assert Pos(e.Attacker(b, a)) in Lits(c);
          AttackerReads(e, owner, ts, s, d, b, a);
        }
      } else {
        assert Neg(e.P(a)) in Lits(c);
        var b := BeatenBy(e, s, a);
        AttackerReads(e, owner, ts, s, d, b, a);
        assert Pos(e.Attacker(b, a)) in Lits(c);
        SureApart(e, s, d, b);
      }
    }
    ClosedIs(ts, Lits(c));
  }

  lemma ClosedIs(ts: iset<Lit>, c: set<Lit>)
    requires forall l :: l in c && (forall q :: q in c && q != l ==> q.Not() in ts) ==> l in ts
    ensures ClosedUnder(ts, c)
  {
  }

  lemma NotBothClosed(e: Enc, owner: seq<Owner>, ts: iset<Lit>, s: set<Arg>, d: set<Arg>, a: Arg)
    requires Closing(e, owner, ts, s, d) && a in e.names
    ensures ClosedUnder(ts, Lits([Neg(e.X(a)), Neg(e.P(a))]))
  {
    hide AllOwned, Beaten, Settled, ClosedUnder;
    XApartP(e, owner, a, a);
    TwoClosed(ts, [Neg(e.X(a)), Neg(e.P(a))]);
  }

  lemma AnswerClosed(e: Enc, owner: seq<Owner>, ts: iset<Lit>, s: set<Arg>, d: set<Arg>, a: Arg, b: Arg)
    requires Closing(e, owner, ts, s, d) && a in e.names && b in To(e.attacks, a)
    ensures ClosedUnder(ts, Lits([Neg(e.X(a)), e.Answer(b, a)]))
  {
    hide AllOwned, Beaten, ClosedUnder;
    AnswerReads(e, owner, ts, s, d, b, a);
    TwoClosed(ts, [Neg(e.X(a)), e.Answer(b, a)]);
  }

  lemma AllAnsweredClosed(e: Enc, owner: seq<Owner>, ts: iset<Lit>, s: set<Arg>, d: set<Arg>, a: Arg)
    requires Closing(e, owner, ts, s, d) && a in e.names
    ensures ClosedUnder(ts, Lits([Pos(e.X(a))] + NotAnswers(e, a, To(e.attacks, a))))
  {
    hide AllOwned, Beaten, ClosedUnder;
    var bs, nots := To(e.attacks, a), NotAnswers(e, a, To(e.attacks, a));
    var c := [Pos(e.X(a))] + nots;
    forall b | b in bs ensures e.Answer(b, a).Not() in c {
      var i :| 0 <= i < |bs| && bs[i] == b;
      assert nots[i] in c;
    }
    forall l | l in Lits(c) && (forall q :: q in Lits(c) && q != l ==> q.Not() in ts) ensures l in ts {
      if l == Pos(e.X(a)) {
        forall b | b in bs ensures b in d {
          AnswerReads(e, owner, ts, s, d, b, a);
          assert e.Answer(b, a).Not() in Lits(c) && e.Answer(b, a).Not() != l;
        }
      } else {
        assert Pos(e.X(a)) in Lits(c);
        var b := BeatenBy(e, s, a);
        AnswerReads(e, owner, ts, s, d, b, a);
        assert e.Answer(b, a).Not() in Lits(c);
        SureApart(e, s, d, b);
      }
    }
    ClosedIs(ts, Lits(c));
  }

  lemma {:induction false} AllDynHas(e: Enc, dyn: seq<DynVar>, c: Clause) returns (x: DynVar)
    requires c in AllDyn(e, dyn, true)
    ensures x in dyn && (c in ReplClauses(e, x) || c in NotAttackedClauses(e, x))
  {
    var d := dyn[|dyn| - 1];
    if c in AllDyn(e, dyn[..|dyn| - 1], true) {
      x := AllDynHas(e, dyn[..|dyn| - 1], c);
    } else {
      assert c in DynClauses(e, d, true);
      x := d;
    }
  }

  lemma DisjunctionClosed(e: Enc, owner: seq<Owner>, ts: iset<Lit>, s: set<Arg>, d: set<Arg>, a: Arg, c: Clause)
    requires Closing(e, owner, ts, s, d) && a in e.names && c in DisjunctionClauses(e, a)
    ensures ClosedUnder(ts, Lits(c))
  {
    hide Closing, ClosedUnder;
    var bs := To(e.attacks, a);
    NotBothClosed(e, owner, ts, s, d, a);
    SomeAttackerClosed(e, owner, ts, s, d, a);
    if c in AttackerClauses(e, a, bs) {
      var i :| 0 <= i < |bs| && AttackerClauses(e, a, bs)[i] == c;
      AttackerClosed(e, owner, ts, s, d, a, bs[i]);
    }
  }

  lemma CompleteClosed(e: Enc, owner: seq<Owner>, ts: iset<Lit>, s: set<Arg>, d: set<Arg>, a: Arg, c: Clause)
    requires Closing(e, owner, ts, s, d) && a in e.names && c in CompleteClauses(e, a)
    ensures ClosedUnder(ts, Lits(c))
  {
    hide Closing, ClosedUnder;
    var bs := To(e.attacks, a);
    AllAnsweredClosed(e, owner, ts, s, d, a);
    if c in AnswerClauses(e, a, bs) {
      var i :| 0 <= i < |bs| && AnswerClauses(e, a, bs)[i] == c;
      AnswerClosed(e, owner, ts, s, d, a, bs[i]);
    }
  }

  /** The set is closed under the whole encoding. */
  lemma EncodingClosed(e: Enc, owner: seq<Owner>, ts: iset<Lit>, s: set<Arg>, d: set<Arg>)
    requires Closing(e, owner, ts, s, d)
    ensures ClosedAll(ts, TheoryOf(CompleteEncoding(e)))
  {
    hide Closing, ClosedUnder;
    forall x | x in TheoryOf(CompleteEncoding(e)) ensures ClosedUnder(ts, x) {
      var c :| c in CompleteEncoding(e) && Lits(c) == x;
      if c in AllDyn(e, e.dyn, true) {
        var y := AllDynHas(e, e.dyn, c);
        DynClosed(e, owner, ts, s, d, y, c);
      } else if c in DisjunctionAll(e) {
        AllHas(e.names, a => DisjunctionClauses(e, a), c);
        var a :| a in e.names && c in DisjunctionClauses(e, a);
        DisjunctionClosed(e, owner, ts, s, d, a, c);
      } else {
        assert c in CompleteAll(e);
        AllHas(e.names, a => CompleteClauses(e, a), c);
        var a :| a in e.names && c in CompleteClauses(e, a);
        CompleteClosed(e, owner, ts, s, d, a, c);
      }
    }
  }

  // ----- what propagation derives -----

  /** Unit resolution derives no other argument. */
  lemma DerivedIsSure(e: Enc, owner: seq<Owner>, t: set<Lit>)
    requires AllOwned(e, owner, true) && Declared(e) && Uniform(e, SureArgs(e)) && Uniform(e, Beaten(e, SureArgs(e)))
    requires Derived(TheoryOf(CompleteEncoding(e)), [], t)
    ensures In(e, t) <= SureArgs(e)
  {
    hide AllOwned, Declared, Uniform, Settled, Beaten, TheoryOf, CompleteEncoding, ClosedAll, SureArgs, Closure;
    var s := SureArgs(e);
    var ts := Closure(e, owner, s);
    SureSettled(e);
    ClosureReads(e, owner, s);
    EncodingClosed(e, owner, ts, s, Beaten(e, s));
    forall a | a in In(e, t) ensures a in s { assert Pos(e.X(a)) in ts; }
  }

  /** Literals that are closed under the encoding, in one of its models. */
  ghost predicate ClosedIn(e: Enc, owner: seq<Owner>, t: set<Lit>, m: Assignment) {
    && AllOwned(e, owner, true) && Declared(e)
    && UnitClosed(TheoryOf(CompleteEncoding(e)), t) && forall q :: q in t ==> True(m, q)
  }

  /** An argument attacked for ever by one that is in is known to be attacked. */
  lemma BeatenDerived(e: Enc, owner: seq<Owner>, t: set<Lit>, m: Assignment, b: Arg)
    requires ClosedIn(e, owner, t, m) && b in Beaten(e, In(e, t))
    ensures Pos(e.P(b)) in t
  {
    hide UnitClosed, AllOwned, TheoryOf, CompleteEncoding;
    var c := BeatenBy(e, In(e, t), b);
    var bs := To(e.attacks, b);
    var i :| 0 <= i < |bs| && bs[i] == c;
    var cl := [Pos(e.P(b)), Neg(e.X(c))];
    assert cl == AttackerClauses(e, b, bs)[i];
    assert DisjunctionClauses(e, b)[1 + i] == cl;
    XApartP(e, owner, c, b);
    ClauseIn(e, b, cl);
    assert cl[0] in cl;
    UnitStep(CompleteEncoding(e), t, m, cl, Pos(e.P(b)));
  }

  /** So it answers for itself, whether its own attacks come and go or not. */
  lemma AnswerDerived(e: Enc, owner: seq<Owner>, t: set<Lit>, m: Assignment, b: Arg, a: Arg)
    requires ClosedIn(e, owner, t, m) && (b, a) in Pairs(e.attacks) && b in Beaten(e, In(e, t))
    ensures e.Answer(b, a) in t
  {
    hide UnitClosed, AllOwned, TheoryOf, CompleteEncoding, Beaten;
    FindMeans(e.dyn, b, a);
    BeatenDerived(e, owner, t, m, b);
    if Find(e.dyn, b, a).Some? {
      var d := Find(e.dyn, b, a).value;
      DynApart(e, owner, d, b);
      var cl := [Neg(d.notAttackedRepl), Neg(e.P(d.from))];
      assert cl == NotAttackedClauses(e, d)[0];
      DynClauseIn(e, d, cl);
      assert cl[0] in cl;
      UnitStep(CompleteEncoding(e), t, m, cl, Neg(d.notAttackedRepl));
    }
  }

  lemma DefendedDerived(e: Enc, owner: seq<Owner>, t: set<Lit>, m: Assignment, a: Arg)
    requires ClosedIn(e, owner, t, m) && a in e.names && forall b :: b in To(e.attacks, a) ==> b in Beaten(e, In(e, t))
    ensures a in In(e, t)
  {
    hide UnitClosed, AllOwned, TheoryOf, CompleteEncoding, Beaten;
    var bs := To(e.attacks, a);
    var nots := NotAnswers(e, a, bs);
    var cl := [Pos(e.X(a))] + nots;
    assert CompleteClauses(e, a)[|bs|] == cl;
    ClauseIn(e, a, cl);
    forall q | q in nots ensures q.Not() in t && !True(m, q) && q.v != e.X(a) {
      var i :| 0 <= i < |bs| && nots[i] == q;
      PairsTo(e.attacks, bs[i], a);
      AnswerDerived(e, owner, t, m, bs[i], a);
      AnswerApart(e, owner, bs[i], a);
    }
    forall q | q in cl ensures q.Not() !in cl { assert q in nots ==> True(m, q.Not()); }
    assert cl[0] in cl;
    UnitStep(CompleteEncoding(e), t, m, cl, Pos(e.X(a)));
  }

  /** A closed set of literals has every sure argument, shared variables or not. */
  lemma SureDerived(e: Enc, owner: seq<Owner>, t: set<Lit>, m: Assignment)
    requires ClosedIn(e, owner, t, m)
    ensures SureArgs(e) <= In(e, t)
  {
    hide UnitClosed, AllOwned, TheoryOf, CompleteEncoding, Beaten;
    SureLeast(Names(e), Pairs(e.attacks), Fixed(e));
    forall a | a in SurelyDefended(Names(e), Pairs(e.attacks), Fixed(e), In(e, t)) ensures a in In(e, t) {
      SureMeans(e, In(e, t), a);
      DefendedDerived(e, owner, t, m, a);
    }
  }

  /** Without assumptions, unit propagation computes exactly the sure arguments. */
  lemma PropagationIsSure(e: Enc, owner: seq<Owner>, t: set<Lit>)
    requires AllOwned(e, owner, true) && Declared(e) && Uniform(e, SureArgs(e)) && Uniform(e, Beaten(e, SureArgs(e)))
    requires Satisfiable(TheoryOf(CompleteEncoding(e)), []) && Forced(TheoryOf(CompleteEncoding(e)), [], t)
    requires UnitClosed(TheoryOf(CompleteEncoding(e)), t) && Derived(TheoryOf(CompleteEncoding(e)), [], t)
    ensures In(e, t) == SureArgs(e)
  {
    hide AllOwned, Declared, Uniform, Beaten, TheoryOf, CompleteEncoding, SureArgs, UnitClosed, Derived;
    var m: Assignment :| IsModel(m, TheoryOf(CompleteEncoding(e)), []);
    assert forall q :: q in t ==> True(m, q);
    SureDerived(e, owner, t, m);
    DerivedIsSure(e, owner, t);
  }

  /** Also where arguments share variables: what is forced without assumptions is the grounded extension after a step if
      and only if it contains every argument that it defends then. */
  lemma ForcedIsGrounded(e: Enc, owner: seq<Owner>, n: nat, a: seq<Lit>, r: set<Attack>, lits: seq<Lit>)
    requires Query(e, owner, n, a, r) && Merges(e, At(e, r)) && Forced(TheoryOf(CompleteEncoding(e)), [], Lits(lits))
    ensures In(e, Lits(lits)) == Grounded(At(e, r)) <==> Characteristic(At(e, r), In(e, Lits(lits))) <= In(e, Lits(lits))
  {
    hide Query, Merges, Forced, CompleteEncoding, TheoryOf, Grounded;
    ForcedInside(e, owner, n, a, r, lits);
    GroundedLeast(At(e, r));
  }

  // ----- from attacks and changes -----

  /** The attacks that some change is about. */
  ghost function Changed(changes: seq<Change>): set<Attack> {
    set i | 0 <= i < |changes| :: changes[i].Pair()
  }

  /** The arguments that the attacks never changed defend against all attacks there ever are. */
  ghost function SureUnder(names: seq<Arg>, initial: set<Attack>, changes: seq<Change>): set<Arg> {
    Sure((set a | a in names), initial + Changed(changes), initial - Changed(changes))
  }

  lemma StoredThreats(e: Enc, initial: set<Attack>, changes: seq<Change>)
    requires Recorded(e.attacks, changes, initial) && Covers(e.dyn, changes, |changes|)
    ensures Pairs(e.attacks) == initial + Changed(changes) && Fixed(e) == initial - Changed(changes)
  {
    forall p: Attack ensures p in Changed(changes) <==> ChangedBefore(changes, |changes|, p) { }
    forall p: Attack ensures Find(e.dyn, p.0, p.1).Some? <==> HasDyn(e.dyn, p) {
      FindMeans(e.dyn, p.0, p.1);
      if HasDyn(e.dyn, p) {
        var j :| 0 <= j < |e.dyn| && (e.dyn[j].from, e.dyn[j].to) == p;
        assert e.dyn[j] in e.dyn;
      }
      if Find(e.dyn, p.0, p.1).Some? {
        var j :| 0 <= j < |e.dyn| && e.dyn[j] == Find(e.dyn, p.0, p.1).value;
      }
    }
  }

  /** After any step, the sure arguments are all that is grounded if and only if they defend nothing else then. */
  lemma SureAfterStep(names: seq<Arg>, initial: set<Attack>, changes: seq<Change>, k: nat)
    requires k <= |changes|
    ensures var f, s := Framework((set a | a in names), Replay(initial, changes, k)), SureUnder(names, initial, changes);
      s <= Grounded(f) && (s == Grounded(f) <==> Characteristic(f, s) <= s)
  {
    var f := Framework((set a | a in names), Replay(initial, changes, k));
    ReplayWithin(initial, changes, k);
    forall p | p in f.attacks && p !in initial ensures p in Changed(changes) {
      var i :| 0 <= i < |changes| && changes[i].Pair() == p;
    }
    forall p | p in initial - Changed(changes) ensures p in f.attacks {
      assert !ChangedBefore(changes, k, p);
      ReplayUnchanged(initial, changes, k, p);
    }
    SureInside(f, initial + Changed(changes), initial - Changed(changes));
    SureIsGrounded(f, initial + Changed(changes), initial - Changed(changes));
  }

  /** Without changes they always are. */
  lemma SureWithoutChanges(names: seq<Arg>, initial: set<Attack>)
    ensures SureUnder(names, initial, []) == Grounded(Framework((set a | a in names), initial))
  {
    assert initial + Changed([]) == initial && initial - Changed([]) == initial;
    SureUnchanged(Framework((set a | a in names), initial));
  }

  lemma EncodingSatisfiable(e: Enc, owner: seq<Owner>)
    requires AllOwned(e, owner, true) && Declared(e) && Uniform(e, Grounded(At(e, Pairs(e.attacks))))
    ensures Satisfiable(TheoryOf(CompleteEncoding(e)), [])
  {
    hide AllOwned, Uniform, Declared, Grounded, Holds, CompleteEncoding, TheoryOf;
    var r := Pairs(e.attacks);
    GroundedLeast(At(e, r));
    CompleteModels(e, owner, Grounded(At(e, r)), r);
    var m: Assignment :| Holds(m, CompleteEncoding(e)) && Switched(e, m, r) && Ext(e, m) == Grounded(At(e, r));
    HoldsTheory(m, CompleteEncoding(e));
    assert IsModel(m, TheoryOf(CompleteEncoding(e)), []);
  }

  /** The arguments that propagation finds without looking at the step, as the ideal and the range-based solvers do. */
  method SwitchFreeArguments(names: seq<Arg>, varOf: map<Arg, nat>, nVars: nat, attacks: Attacks) returns (propagated: seq<nat>)
    requires InputOk(names, varOf, nVars, attacks) && Injective(names, varOf)
    ensures forall a :: a in names ==> (varOf[a] in propagated <==> a in SureUnder(names, attacks.initial, attacks.dynAttacks))
  {
    hide AllOwned, Declared, Covers, CompleteEncoding, TheoryOf, Recorded, Sure, Changed, Grounded, Derived, Forced, UnitClosed, Satisfiable, Injective, ClausesBelow;
    var h := EncodeComplete(names, varOf, nVars, attacks);
    ghost var e := h.EncNow();
    EncodingBelow(e, h.owner);
    InjectiveUniform(e, SureArgs(e));
    InjectiveUniform(e, Beaten(e, SureArgs(e)));
    InjectiveUniform(e, Grounded(At(e, Pairs(e.attacks))));
    EncodingSatisfiable(e, h.owner);
    var lits := PropagatedAtTop(h);
    PropagationIsSure(e, h.owner, Lits(lits));
    StoredThreats(e, attacks.initial, attacks.dynAttacks);
    assert SureArgs(e) == SureUnder(names, attacks.initial, attacks.dynAttacks);
    propagated := Positives(lits);
    forall a | a in names ensures varOf[a] in propagated <==> a in SureArgs(e) {
      assert a in In(e, Lits(lits)) <==> Pos(varOf[a]) in lits;
    }
  }
}
