/** Formulas as sets of clauses: when one says the same as another in smaller clauses, and when a clause shrinks another. */
module Subsumption {
  import opened Cnf
  import M = ClauseMemory

  ghost predicate AllSat(m: Assignment, cs: set<Clause>) {
    forall c :: c in cs ==> Sat(m, Lits(c))
  }

  /** Some total assignment satisfies all clauses. */
  ghost predicate HasModel(cs: set<Clause>) {
    exists m: Assignment :: AllSat(m, cs)
  }

  /** Some clause has no other literals than these. */
  ghost predicate Inside(cs: set<Clause>, ls: set<Lit>) {
    exists d :: d in cs && Lits(d) <= ls
  }

  /** Every clause of `f` has become smaller in `g` or has stayed, and `g` follows from `f`. */
  ghost predicate Stronger(f: set<Clause>, g: set<Clause>) {
    && (forall c :: c in f ==> Inside(g, Lits(c)))
    && forall m: Assignment :: AllSat(m, f) ==> AllSat(m, g)
  }

  lemma StrongerRefl(f: set<Clause>)
    ensures Stronger(f, f)
  {
  }

  lemma StrongerTrans(f: set<Clause>, g: set<Clause>, h: set<Clause>)
    requires Stronger(f, g) && Stronger(g, h)
    ensures Stronger(f, h)
  {
    hide AllSat;
    forall c | c in f ensures Inside(h, Lits(c)) {
      assert Inside(g, Lits(c));
      var d :| d in g && Lits(d) <= Lits(c);
      assert Inside(h, Lits(d));
    }
  }

  lemma SatMore(m: Assignment, c: set<Lit>, d: set<Lit>)
    requires Sat(m, c) && c <= d
    ensures Sat(m, d)
  {
  }

  /** A clause that contains another may go. */
  lemma DropSubsumed(f: set<Clause>, g: set<Clause>, c: Clause, d: Clause)
    requires c in g && Lits(c) <= Lits(d) && g <= f && f <= g + {d}
    ensures Stronger(f, g)
  {
    hide Sat;
    forall x | x in f ensures Inside(g, Lits(x)) { if x !in g { assert x == d && c in g; } }
  }

  /** A clause may be replaced by an implied one inside it. */
  lemma ReplaceSmaller(f: set<Clause>, g: set<Clause>, d: Clause, e: Clause)
    requires e in g && Lits(e) <= Lits(d) && g <= f + {e} && f <= g + {d}
    requires forall m: Assignment :: AllSat(m, f) ==> Sat(m, Lits(e))
    ensures Stronger(f, g)
  {
    hide Sat;
    forall x | x in f ensures Inside(g, Lits(x)) { if x !in g { assert x == d && e in g; } }
  }

  /** Implied clauses may be added. */
  lemma AddImplied(f: set<Clause>, e: Clause)
    requires forall m: Assignment :: AllSat(m, f) ==> Sat(m, Lits(e))
    ensures Stronger(f, f + {e})
  {
    hide Sat;
    forall x | x in f ensures Inside(f + {e}, Lits(x)) { assert x in f + {e}; }
  }

  // ----- the test -----

  /** What a clause is for another: nothing, a reason to drop it, or to drop the negation of one literal from it. */
  datatype Relation = Unrelated | Subsumes | Strengthens(p: Lit)

  ghost predicate ShrinksBy(c: Clause, d: Clause, p: Lit) {
    p in c && p.Not() in d && forall l :: l in c && l != p ==> l in d
  }

  ghost predicate Related(c: Clause, d: Clause, r: Relation) {
    match r
    case Unrelated => !(Lits(c) <= Lits(d)) && forall p :: !ShrinksBy(c, d, p)
    case Subsumes => Lits(c) <= Lits(d)
    case Strengthens(p) => ShrinksBy(c, d, p)
  }

  ghost function Vars(c: Clause): set<nat> {
    set l | l in c :: l.v
  }

  lemma {:induction false} VarsCount(c: Clause)
    requires DistinctVars(c)
    ensures |Vars(c)| == |c|
  {
    if c == [] {
      assert Vars(c) == {};
    } else {
      var front, l := c[..|c| - 1], c[|c| - 1];
      VarsCount(front);
      assert c == front + [l];
      assert forall q :: q in front ==> q.v != l.v;
      assert Vars(c) == Vars(front) + {l.v};
    }
  }

  lemma SubsetSize(a: set<nat>, b: set<nat>)
    requires a <= b
    ensures |a| <= |b|
  {
    if a == b {
    } else {
      var x :| x in b && x !in a;
      SubsetSize(a, b - {x});
    }
  }

  /** The quick tests on sizes and variable bits never reject a related clause. */
  lemma QuickTests(c: Clause, d: Clause)
    requires DistinctVars(c) && DistinctVars(d) && (Lits(c) <= Lits(d) || exists p :: ShrinksBy(c, d, p))
    ensures |c| <= |d| && M.Abstraction(c) <= M.Abstraction(d)
  {
    forall v | v in Vars(c) ensures v in Vars(d) {
      var l :| l in c && l.v == v;
      if Lits(c) <= Lits(d) {
        assert l in Lits(c);
        assert l in Lits(d) && l in d;
      } else {
        var p :| ShrinksBy(c, d, p);
        assert l in d || p.Not() in d;
      }
    }
    VarsCount(c);
    VarsCount(d);
    SubsetSize(Vars(c), Vars(d));
    forall b | b in M.Abstraction(c) ensures b in M.Abstraction(d) {
      var l :| l in c && l.v % 32 == b;
      assert l.v in Vars(c);
      var q :| q in d && q.v == l.v;
    }
  }

  /** After the literals before `i`: all are in `d`, or all but one, whose negation is. */
  ghost predicate Sofar(c: Clause, d: Clause, i: nat, r: Relation) {
    && i <= |c| && !r.Unrelated?
    && (r.Subsumes? ==> forall l :: l in c[..i] ==> l in d)
    && (r.Strengthens? ==> r.p in c[..i] && r.p.Not() in d && forall l :: l in c[..i] && l != r.p ==> l in d)
  }

  lemma SofarNext(c: Clause, d: Clause, i: nat, r: Relation, r': Relation)
    requires Sofar(c, d, i, r) && i < |c| && DistinctVars(c)
    requires (c[i] in d && r' == r) || (r.Subsumes? && c[i].Not() in d && r' == Strengthens(c[i]))
    ensures Sofar(c, d, i + 1, r')
  {
    assert c[..i + 1] == c[..i] + [c[i]];
    forall l | l in c[..i] ensures l != c[i] {
      var k :| 0 <= k < i && c[k] == l;
    }
  }

  lemma SofarFails(c: Clause, d: Clause, i: nat, r: Relation)
    requires Sofar(c, d, i, r) && i < |c| && DistinctVars(c) && DistinctVars(d)
    requires c[i] !in d && (r.Subsumes? ==> c[i].Not() !in d)
    ensures Related(c, d, Unrelated)
  {
    assert c[i] in c && c[i] in Lits(c) && c[i] !in Lits(d);
    forall p ensures !ShrinksBy(c, d, p) {
      if ShrinksBy(c, d, p) {
        assert p == c[i];
        if r.Strengthens? {
          var k :| 0 <= k < i && c[k] == r.p;
          assert r.p in c && r.p != p;
          OneSign(d, r.p);
        }
      }
    }
  }

  lemma OneSign(d: Clause, p: Lit)
    requires DistinctVars(d) && p in d
    ensures p.Not() !in d
  {
    var i :| 0 <= i < |d| && d[i] == p;
    forall j | 0 <= j < |d| ensures d[j] != p.Not() { assert j != i ==> d[j].v != d[i].v; }
  }

  /** Whether `c` subsumes `d`, or all but one of its literals are in `d` and the negation of that one is. */
  method Compare(c: Clause, d: Clause) returns (r: Relation)
    requires DistinctVars(c) && DistinctVars(d)
    ensures Related(c, d, r)
  {
    hide DistinctVars, Related, Sofar;
    if |d| < |c| || !(M.Abstraction(c) <= M.Abstraction(d)) {
      NotQuick(c, d);
      return Unrelated;
    }
    r := Subsumes;
    SofarStart(c, d);
    var i := 0;
    while i < |c|
      invariant 0 <= i <= |c| && Sofar(c, d, i, r) && !r.Unrelated?
    {
      var found, next := false, r;
      var j := 0;
      while j < |d| && !found
        invariant 0 <= j <= |d|
        invariant !found ==> next == r && c[i] !in d[..j] && (r.Subsumes? ==> c[i].Not() !in d[..j])
        invariant found ==> (c[i] in d && next == r) || (r.Subsumes? && c[i].Not() in d && next == Strengthens(c[i]))
      {
        assert d[..j + 1] == d[..j] + [d[j]] && d[j] in d;
        if c[i] == d[j] {
          found := true;
        } else if r.Subsumes? && c[i] == d[j].Not() {
          assert c[i].Not() == d[j];
          found, next := true, Strengthens(c[i]);
        }
        j := j + 1;
      }
      if !found {
        assert d[..j] == d;
        SofarFails(c, d, i, r);
        return Unrelated;
      }
      SofarNext(c, d, i, r, next);
      r := next;
      i := i + 1;
    }
    SofarDone(c, d, r);
  }

  lemma SofarStart(c: Clause, d: Clause)
    ensures Sofar(c, d, 0, Subsumes)
  {
  }

  lemma SofarDone(c: Clause, d: Clause, r: Relation)
    requires Sofar(c, d, |c|, r)
    ensures Related(c, d, r)
  {
    assert c[..|c|] == c;
  }

  lemma NotQuick(c: Clause, d: Clause)
    requires DistinctVars(c) && DistinctVars(d) && (|d| < |c| || !(M.Abstraction(c) <= M.Abstraction(d)))
    ensures Related(c, d, Unrelated)
  {
    if Lits(c) <= Lits(d) || exists p :: ShrinksBy(c, d, p) { QuickTests(c, d); }
  }

  // ----- dropping a literal -----

  /** The clause without its literal `p`, in the same order. */
  method RemoveLit(c: Clause, p: Lit) returns (e: Clause)
    requires DistinctVars(c) && p in c
    ensures DistinctVars(e) && |e| == |c| - 1 && Lits(e) == Lits(c) - {p}
  {
    var j := 0;
    while c[j] != p
      invariant 0 <= j < |c| && p in c[j..]
      decreases |c| - j
    {
      assert c[j..] == [c[j]] + c[j + 1..];
      j := j + 1;
    }
    e := c[..j] + c[j + 1..];
    assert c == c[..j] + [c[j]] + c[j + 1..];
    forall l ensures l in e <==> l in c && l != p {
      if l in e { var k :| 0 <= k < |e| && e[k] == l; }
    }
  }

  /** A clause that strengthens another leaves an implied clause: the two resolve. */
  lemma ShrunkHolds(m: Assignment, c: Clause, d: Clause, p: Lit)
    requires Sat(m, Lits(c)) && Sat(m, Lits(d)) && ShrinksBy(c, d, p) && DistinctVars(c)
    ensures Sat(m, Lits(d) - {p.Not()})
  {
    OneSign(c, p);
    var l :| l in Lits(c) && True(m, l);
    var q :| q in Lits(d) && True(m, q);
    assert if l == p then q in Lits(d) - {p.Not()} else l in Lits(d) - {p.Not()};
  }
}
