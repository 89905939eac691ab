/** Abstract argumentation frameworks and their semantics. */
module Argumentation {
  type Arg = string
  type Attack = (Arg, Arg)

  datatype Framework = Framework(args: set<Arg>, attacks: set<Attack>)

  ghost predicate Wf(f: Framework) {
    forall p :: p in f.attacks ==> p.0 in f.args && p.1 in f.args
  }

  /** Some member of `s` attacks `b`. */
  ghost predicate Attacked(f: Framework, s: set<Arg>, b: Arg) {
    exists a :: a in s && (a, b) in f.attacks
  }

  ghost predicate Defends(f: Framework, s: set<Arg>, a: Arg) {
    forall b :: (b, a) in f.attacks ==> Attacked(f, s, b)
  }

  ghost predicate ConflictFree(f: Framework, s: set<Arg>) {
    s <= f.args && forall a :: a in s ==> !Attacked(f, s, a)
  }

  ghost predicate Admissible(f: Framework, s: set<Arg>) {
    ConflictFree(f, s) && forall a :: a in s ==> Defends(f, s, a)
  }

  ghost predicate Complete(f: Framework, s: set<Arg>) {
    Admissible(f, s) && forall a :: a in f.args && Defends(f, s, a) ==> a in s
  }

  ghost predicate Stable(f: Framework, s: set<Arg>) {
    ConflictFree(f, s) && forall a :: a in f.args && a !in s ==> Attacked(f, s, a)
  }

  ghost predicate Preferred(f: Framework, s: set<Arg>) {
    Admissible(f, s) && forall t :: Admissible(f, t) && s <= t ==> t == s
  }

  ghost function Range(f: Framework, s: set<Arg>): set<Arg> {
    set a | a in f.args && (a in s || Attacked(f, s, a))
  }

  ghost predicate SemiStable(f: Framework, s: set<Arg>) {
    Complete(f, s) && forall t :: Complete(f, t) && Range(f, s) <= Range(f, t) ==> Range(f, t) == Range(f, s)
  }

  ghost predicate Stage(f: Framework, s: set<Arg>) {
    ConflictFree(f, s) && forall t :: ConflictFree(f, t) && Range(f, s) <= Range(f, t) ==> Range(f, t) == Range(f, s)
  }

  /** An admissible set contained in every preferred one. */
  ghost predicate Cautious(f: Framework, s: set<Arg>) {
    Admissible(f, s) && forall p :: Preferred(f, p) ==> s <= p
  }

  ghost predicate Ideal(f: Framework, s: set<Arg>) {
    Cautious(f, s) && forall t :: Cautious(f, t) ==> t <= s
  }

  // ----- the characteristic function and the grounded extension -----

  ghost function Characteristic(f: Framework, s: set<Arg>): set<Arg> {
    set a | a in f.args && Defends(f, s, a)
  }

  ghost function GroundedFrom(f: Framework, s: set<Arg>): set<Arg>
    decreases f.args - s
  {
    if Characteristic(f, s) <= s then s else GroundedFrom(f, s + Characteristic(f, s))
  }

  /** The least fixed point of the characteristic function. */
  ghost function Grounded(f: Framework): set<Arg> {
    GroundedFrom(f, {})
  }

  lemma DefendsMore(f: Framework, s: set<Arg>, t: set<Arg>, a: Arg)
    requires s <= t && Defends(f, s, a)
    ensures Defends(f, t, a)
  {
    forall b | (b, a) in f.attacks ensures Attacked(f, t, b) { assert Attacked(f, s, b); }
  }

  lemma DefendedUnattacked(f: Framework, s: set<Arg>, a: Arg)
    requires ConflictFree(f, s) && Defends(f, s, a)
    ensures !Attacked(f, s, a)
  {
    forall g | g in s ensures (g, a) !in f.attacks { assert !Attacked(f, s, g); }
  }

  lemma AttackerUndefended(f: Framework, s: set<Arg>, b: Arg, a: Arg)
    requires ConflictFree(f, s) && Defends(f, s, a) && (b, a) in f.attacks
    ensures !Defends(f, s, b)
  {
    assert Attacked(f, s, b);
    var c :| c in s && (c, b) in f.attacks;
    assert Defends(f, s, b) ==> Attacked(f, s, c);
  }

  /** What an admissible set defends is admissible together with it. */
  lemma CharacteristicAdmissible(f: Framework, s: set<Arg>)
    requires Admissible(f, s)
    ensures s <= Characteristic(f, s) && Admissible(f, Characteristic(f, s))
  {
    var t := Characteristic(f, s);
    forall a | a in t ensures !Attacked(f, t, a) && Defends(f, t, a) {
      DefendsMore(f, s, t, a);
      forall b | (b, a) in f.attacks ensures b !in t { AttackerUndefended(f, s, b, a); }
    }
  }

  lemma GroundedFromAdmissible(f: Framework, s: set<Arg>)
    requires Admissible(f, s)
    ensures Complete(f, GroundedFrom(f, s)) && s <= GroundedFrom(f, s)
    decreases f.args - s
  {
    CharacteristicAdmissible(f, s);
    if !(Characteristic(f, s) <= s) {
      assert s + Characteristic(f, s) == Characteristic(f, s);
      GroundedFromAdmissible(f, Characteristic(f, s));
    }
  }

  lemma GroundedFromLeast(f: Framework, s: set<Arg>, t: set<Arg>)
    requires s <= t && Characteristic(f, t) <= t
    ensures GroundedFrom(f, s) <= t
    decreases f.args - s
  {
    forall a | a in Characteristic(f, s) ensures a in t { DefendsMore(f, s, t, a); }
    if !(Characteristic(f, s) <= s) { GroundedFromLeast(f, s + Characteristic(f, s), t); }
  }

  /** The grounded extension is complete, and contained in everything the characteristic function
      does not grow, so in every complete extension. */
  lemma GroundedLeast(f: Framework)
    ensures Complete(f, Grounded(f)) && Characteristic(f, Grounded(f)) == Grounded(f)
    ensures forall t :: Characteristic(f, t) <= t ==> Grounded(f) <= t
    ensures forall t :: Complete(f, t) ==> Grounded(f) <= t
  {
    GroundedFromAdmissible(f, {});
    CharacteristicAdmissible(f, Grounded(f));
    forall t | Characteristic(f, t) <= t ensures Grounded(f) <= t { GroundedFromLeast(f, {}, t); }
  }

  // ----- attacks that may come and go -----

  /** Every attack in `threats` is answered by one in `fixed`. */
  ghost predicate SurelyDefends(threats: set<Attack>, fixed: set<Attack>, s: set<Arg>, a: Arg) {
    forall b :: (b, a) in threats ==> exists c :: c in s && (c, b) in fixed
  }

  ghost function SurelyDefended(args: set<Arg>, threats: set<Attack>, fixed: set<Attack>, s: set<Arg>): set<Arg> {
    set a | a in args && SurelyDefends(threats, fixed, s, a)
  }

  ghost function SureFrom(args: set<Arg>, threats: set<Attack>, fixed: set<Attack>, s: set<Arg>): set<Arg>
    decreases args - s
  {
    var t := SurelyDefended(args, threats, fixed, s);
    if t <= s then s else SureFrom(args, threats, fixed, s + t)
  }

  /** The least fixed point when all of `threats` attack, but only what is `fixed` defends. */
  ghost function Sure(args: set<Arg>, threats: set<Attack>, fixed: set<Attack>): set<Arg> {
    SureFrom(args, threats, fixed, {})
  }

  lemma SurelyDefendsMore(threats: set<Attack>, fixed: set<Attack>, s: set<Arg>, t: set<Arg>, a: Arg)
    requires s <= t && SurelyDefends(threats, fixed, s, a)
    ensures SurelyDefends(threats, fixed, t, a)
  {
  }

  lemma SureFromLeast(args: set<Arg>, threats: set<Attack>, fixed: set<Attack>, s: set<Arg>, t: set<Arg>)
    requires s <= t && SurelyDefended(args, threats, fixed, t) <= t
    ensures SureFrom(args, threats, fixed, s) <= t
    decreases args - s
  {
    hide SurelyDefends;
    var d := SurelyDefended(args, threats, fixed, s);
    forall a | a in d ensures a in t { SurelyDefendsMore(threats, fixed, s, t, a); }
    if !(d <= s) { SureFromLeast(args, threats, fixed, s + d, t); }
  }

  lemma SureFromFixed(args: set<Arg>, threats: set<Attack>, fixed: set<Attack>, s: set<Arg>)
    requires s <= SurelyDefended(args, threats, fixed, s)
    ensures SurelyDefended(args, threats, fixed, SureFrom(args, threats, fixed, s)) == SureFrom(args, threats, fixed, s)
    decreases args - s
  {
    hide SurelyDefends;
    var d := SurelyDefended(args, threats, fixed, s);
    if !(d <= s) {
      forall a | a in s + d ensures a in SurelyDefended(args, threats, fixed, s + d) { SurelyDefendsMore(threats, fixed, s, s + d, a); }
      SureFromFixed(args, threats, fixed, s + d);
    }
  }

  lemma SureLeast(args: set<Arg>, threats: set<Attack>, fixed: set<Attack>)
    ensures SurelyDefended(args, threats, fixed, Sure(args, threats, fixed)) == Sure(args, threats, fixed)
    ensures forall t :: SurelyDefended(args, threats, fixed, t) <= t ==> Sure(args, threats, fixed) <= t
  {
    SureFromFixed(args, threats, fixed, {});
    forall t | SurelyDefended(args, threats, fixed, t) <= t ensures Sure(args, threats, fixed) <= t { SureFromLeast(args, threats, fixed, {}, t); }
  }

  /** Whatever attacks are present, as long as the fixed ones are and no others than the threats, the sure arguments are grounded. */
  lemma SureInside(f: Framework, threats: set<Attack>, fixed: set<Attack>)
    requires fixed <= f.attacks <= threats
    ensures Sure(f.args, threats, fixed) <= Grounded(f)
  {
    GroundedLeast(f);
    SureLeast(f.args, threats, fixed);
    var g := Grounded(f);
    forall a | a in SurelyDefended(f.args, threats, fixed, g) ensures a in g {
      forall b | (b, a) in f.attacks ensures Attacked(f, g, b) {
        var c :| c in g && (c, b) in fixed;
      }
      assert a in Characteristic(f, g);
    }
  }

  /** They are all that is grounded if and only if they defend nothing else in the framework. */
  lemma SureIsGrounded(f: Framework, threats: set<Attack>, fixed: set<Attack>)
    requires fixed <= f.attacks <= threats
    ensures Sure(f.args, threats, fixed) == Grounded(f) <==> Characteristic(f, Sure(f.args, threats, fixed)) <= Sure(f.args, threats, fixed)
  {
    SureInside(f, threats, fixed);
    GroundedLeast(f);
  }

  /** So they are when nothing comes or goes. */
  lemma SureUnchanged(f: Framework)
    ensures Sure(f.args, f.attacks, f.attacks) == Grounded(f)
  {
    var s := Sure(f.args, f.attacks, f.attacks);
    SureLeast(f.args, f.attacks, f.attacks);
    forall a | a in Characteristic(f, s) ensures a in s {
      forall b | (b, a) in f.attacks ensures exists c :: c in s && (c, b) in f.attacks { assert Attacked(f, s, b); }
      assert a in SurelyDefended(f.args, f.attacks, f.attacks, s);
    }
    SureIsGrounded(f, f.attacks, f.attacks);
  }

  // ----- preferred and complete -----

  /** Every admissible set is contained in a complete one. */
  lemma AdmissibleToComplete(f: Framework, s: set<Arg>) returns (c: set<Arg>)
    requires Admissible(f, s)
    ensures Complete(f, c) && s <= c
  {
    GroundedFromAdmissible(f, s);
    c := GroundedFrom(f, s);
  }

  ghost predicate MaxComplete(f: Framework, s: set<Arg>) {
    Complete(f, s) && forall t :: Complete(f, t) && s <= t ==> t == s
  }

  /** The preferred extensions are the maximal complete ones. */
  lemma PreferredIsMaxComplete(f: Framework, s: set<Arg>)
    ensures Preferred(f, s) <==> MaxComplete(f, s)
  {
    if Preferred(f, s) {
      var c := AdmissibleToComplete(f, s);
    }
    if MaxComplete(f, s) {
      forall t | Admissible(f, t) && s <= t ensures t == s {
        var c := AdmissibleToComplete(f, t);
      }
    }
  }

  /** Every admissible set is contained in a preferred one. */
  lemma AdmissibleToPreferred(f: Framework, s: set<Arg>) returns (p: set<Arg>)
    requires Admissible(f, s)
    ensures Preferred(f, p) && s <= p
    decreases f.args - s
  {
    if t :| Admissible(f, t) && s < t {
      p := AdmissibleToPreferred(f, t);
    } else {
      p := s;
    }
  }

  lemma StableIsPreferred(f: Framework, s: set<Arg>)
    requires Wf(f) && Stable(f, s)
    ensures Preferred(f, s)
  {
    forall a | a in s ensures Defends(f, s, a) {
      forall b | (b, a) in f.attacks ensures Attacked(f, s, b) { assert !Attacked(f, s, a); }
    }
    forall t | Admissible(f, t) && s <= t ensures t == s {
      forall a | a in t ensures a in s {
        assert !Attacked(f, t, a);
        assert Attacked(f, s, a) ==> Attacked(f, t, a);
      }
    }
  }

  // ----- the ideal extension -----

  /** Two cautious sets are cautious together. */
  lemma CautiousUnion(f: Framework, s: set<Arg>, t: set<Arg>)
    requires Cautious(f, s) && Cautious(f, t)
    ensures Cautious(f, s + t)
  {
    var u := s + t;
    var p := AdmissibleToPreferred(f, s);
    forall a | a in u ensures !Attacked(f, u, a) && Defends(f, u, a) {
      assert u <= p && a in p;
      assert Attacked(f, u, a) ==> Attacked(f, p, a);
      if a in s { DefendsMore(f, s, u, a); } else { DefendsMore(f, t, u, a); }
    }
  }

  /** A maximal cautious set contains all others. */
  lemma MaximalCautiousIsIdeal(f: Framework, s: set<Arg>)
    requires Cautious(f, s) && forall t :: Cautious(f, t) && s <= t ==> t == s
    ensures Ideal(f, s)
  {
    forall t | Cautious(f, t) ensures t <= s {
      CautiousUnion(f, s, t);
    }
  }

  /** The ideal extension is complete. */
  lemma IdealComplete(f: Framework, s: set<Arg>)
    requires Ideal(f, s)
    ensures Complete(f, s)
  {
    CharacteristicAdmissible(f, s);
    var c := Characteristic(f, s);
    forall p | Preferred(f, p) ensures c <= p {
      PreferredIsMaxComplete(f, p);
      forall a | a in c ensures a in p { DefendsMore(f, s, p, a); }
    }
    assert Cautious(f, c);
  }

  lemma GroundedCautious(f: Framework)
    ensures Cautious(f, Grounded(f))
  {
    GroundedLeast(f);
    forall p | Preferred(f, p) ensures Grounded(f) <= p { PreferredIsMaxComplete(f, p); }
  }

  // ----- ranges -----

  /** Conflict-free sets with the same range are not properly contained in each other. */
  lemma SameRangeAntichain(f: Framework, s: set<Arg>, t: set<Arg>)
    requires ConflictFree(f, s) && ConflictFree(f, t) && Range(f, s) == Range(f, t) && s <= t
    ensures s == t
  {
    forall a | a in t ensures a in s {
      assert a in Range(f, s);
      assert Attacked(f, s, a) ==> Attacked(f, t, a);
    }
  }

  lemma RangeMonotone(f: Framework, s: set<Arg>, t: set<Arg>)
    requires s <= t
    ensures Range(f, s) <= Range(f, t)
  {
    forall a | a in Range(f, s) ensures a in Range(f, t) {
      assert Attacked(f, s, a) ==> Attacked(f, t, a);
    }
  }
}
