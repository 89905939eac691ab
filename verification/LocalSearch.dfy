/** The counters of the local search: kept up to date flip by flip, they equal what a recount gives. */
module WalkSat {
  import opened Cnf
  import Trail

  predicate TrueIn(atom: seq<bool>, l: Lit) {
    l.v < |atom| && atom[l.v] != l.neg
  }

  /** The number of true literals. */
  function TrueCount(atom: seq<bool>, c: Clause): nat {
    if c == [] then 0 else TrueCount(atom, c[..|c| - 1]) + if TrueIn(atom, c[|c| - 1]) then 1 else 0
  }

  /** The clause has a true literal of variable `u`. */
  ghost predicate TrueVar(atom: seq<bool>, c: Clause, u: nat) {
    exists l :: l in c && l.v == u && TrueIn(atom, l)
  }

  ghost predicate Mentions(c: Clause, u: nat) {
    exists l :: l in c && l.v == u
  }

  lemma {:induction false} CountZero(atom: seq<bool>, c: Clause)
    ensures TrueCount(atom, c) == 0 <==> forall l :: l in c ==> !TrueIn(atom, l)
  {
    if c != [] {
      var d, l := c[..|c| - 1], c[|c| - 1];
      CountZero(atom, d);
      assert c == d + [l];
    }
  }

  /** Two true literals of different variables need a count of two. */
  lemma {:induction false} CountTwo(atom: seq<bool>, c: Clause, u: nat)
    requires DistinctVars(c) && TrueVar(atom, c, u)
    ensures TrueCount(atom, c) >= 1
    ensures TrueCount(atom, c) >= 2 <==> exists l :: l in c && TrueIn(atom, l) && l.v != u
  {
    var d, l := c[..|c| - 1], c[|c| - 1];
    assert c == d + [l];
    if TrueIn(atom, l) && l.v == u {
      CountZero(atom, d);
      forall q | q in d ensures q.v != u { var i :| 0 <= i < |d| && d[i] == q; }
    } else {
      assert TrueVar(atom, d, u);
      CountTwo(atom, d, u);
    }
  }

  /** Clauses without the flipped variable keep their count; with it, the count moves by one. */
  lemma {:induction false} CountFlipped(atom: seq<bool>, c: Clause, x: Lit)
    requires DistinctVars(c) && x.v < |atom| && !TrueIn(atom, x)
    ensures var atom' := atom[x.v := !atom[x.v]];
      TrueCount(atom', c) == TrueCount(atom, c) + (if x in c then 1 else 0) - (if x.Not() in c then 1 else 0)
  {
    if c != [] {
      var d, l := c[..|c| - 1], c[|c| - 1];
      assert c == d + [l];
      CountFlipped(atom, d, x);
      if l.v == x.v {
        forall q | q in d ensures q.v != x.v { var i :| 0 <= i < |d| && d[i] == q; }
        assert l == x || l == x.Not();
      }
    }
  }

  lemma OtherVarFlipped(atom: seq<bool>, c: Clause, x: Lit, u: nat)
    requires x.v < |atom| && u != x.v
    ensures TrueVar(atom[x.v := !atom[x.v]], c, u) <==> TrueVar(atom, c, u)
  {
    var atom' := atom[x.v := !atom[x.v]];
    forall l | l in c && l.v == u ensures TrueIn(atom', l) <==> TrueIn(atom, l) { }
  }

  // ----- the counters, from scratch -----

  /** Weight of the false clauses among the first `n` that mention `u`. */
  ghost function MakeSum(cs: seq<Clause>, ws: seq<nat>, numTrue: seq<nat>, u: nat, n: nat): nat
    requires n <= |cs| == |ws| == |numTrue|
  {
    if n == 0 then 0
    else MakeSum(cs, ws, numTrue, u, n - 1) + if numTrue[n - 1] == 0 && Mentions(cs[n - 1], u) then ws[n - 1] else 0
  }

  /** Weight of the clauses among the first `n` whose only true literal is the watched one, of `u`. */
  ghost function BreakSum(ws: seq<nat>, numTrue: seq<nat>, watch1: seq<nat>, u: nat, n: nat): nat
    requires n <= |ws| == |numTrue| == |watch1|
  {
    if n == 0 then 0
    else BreakSum(ws, numTrue, watch1, u, n - 1) + if numTrue[n - 1] == 1 && watch1[n - 1] == u then ws[n - 1] else 0
  }

  function If(b: bool, w: nat): nat {
    if b then w else 0
  }

  /** Changing one clause changes only its own share. */
  lemma {:induction false} MakeChanged(cs: seq<Clause>, ws: seq<nat>, numTrue: seq<nat>, u: nat, n: nat, i: nat, x: nat)
    requires n <= |cs| == |ws| == |numTrue| && i < |cs|
    ensures MakeSum(cs, ws, numTrue[i := x], u, n) + If(i < n && numTrue[i] == 0 && Mentions(cs[i], u), ws[i])
      == MakeSum(cs, ws, numTrue, u, n) + If(i < n && x == 0 && Mentions(cs[i], u), ws[i])
  {
    if n > 0 { MakeChanged(cs, ws, numTrue, u, n - 1, i, x); }
  }

  lemma {:induction false} BreakChanged(ws: seq<nat>, numTrue: seq<nat>, watch1: seq<nat>, u: nat, n: nat, i: nat, x: nat, y: nat)
    requires n <= |ws| == |numTrue| == |watch1| && i < |ws|
    ensures BreakSum(ws, numTrue[i := x], watch1[i := y], u, n) + If(i < n && numTrue[i] == 1 && watch1[i] == u, ws[i])
      == BreakSum(ws, numTrue, watch1, u, n) + If(i < n && x == 1 && y == u, ws[i])
  {
    if n > 0 { BreakChanged(ws, numTrue, watch1, u, n - 1, i, x, y); }
  }

  // ----- one clause -----

  /** The count is right, and the watches are different true variables as far as there are any. */
  ghost predicate ClauseOk(atom: seq<bool>, c: Clause, numTrue: nat, watch1: nat, watch2: nat) {
    && numTrue == TrueCount(atom, c)
    && (numTrue >= 1 ==> TrueVar(atom, c, watch1))
    && (numTrue >= 2 ==> TrueVar(atom, c, watch2) && watch1 != watch2)
  }

  /** A clause with neither the flipped literal nor its negation is as before. */
  lemma Untouched(atom: seq<bool>, c: Clause, x: Lit, numTrue: nat, watch1: nat, watch2: nat)
    requires ClauseOk(atom, c, numTrue, watch1, watch2) && DistinctVars(c) && x.v < |atom| && !TrueIn(atom, x) && x !in c && x.Not() !in c
    ensures ClauseOk(atom[x.v := !atom[x.v]], c, numTrue, watch1, watch2)
  {
    CountFlipped(atom, c, x);
    forall u | TrueVar(atom, c, u) ensures TrueVar(atom[x.v := !atom[x.v]], c, u) {
      var l :| l in c && l.v == u && TrueIn(atom, l);
      assert u == x.v ==> l == x || l == x.Not();
      OtherVarFlipped(atom, c, x, u);
    }
  }

  lemma OneSign(c: Clause, x: Lit)
    requires DistinctVars(c) && x in c
    ensures x.Not() !in c
  {
    var i :| 0 <= i < |c| && c[i] == x;
    forall j | 0 <= j < |c| ensures c[j] != x.Not() { }
  }

  /** Losing a true literal: what the counters need to know. */
  lemma LosesTrue(atom: seq<bool>, c: Clause, x: Lit, numTrue: nat, watch1: nat, watch2: nat)
    requires ClauseOk(atom, c, numTrue, watch1, watch2) && DistinctVars(c) && x.v < |atom| && !TrueIn(atom, x) && x.Not() in c
    ensures var atom' := atom[x.v := !atom[x.v]];
      && numTrue >= 1 && TrueCount(atom', c) == numTrue - 1
      && (numTrue == 1 ==> watch1 == x.v)
      && (forall u :: u != x.v && TrueVar(atom, c, u) ==> TrueVar(atom', c, u))
      && (forall l :: l in c && TrueIn(atom', l) ==> l.v != x.v)
  {
    var atom' := atom[x.v := !atom[x.v]];
    CountFlipped(atom, c, x);
    OneSign(c, x.Not());
    assert TrueVar(atom, c, x.v) by { assert TrueIn(atom, x.Not()); }
    CountTwo(atom, c, x.v);
    forall u | u != x.v ensures TrueVar(atom', c, u) <==> TrueVar(atom, c, u) { OtherVarFlipped(atom, c, x, u); }
    forall l | l in c && TrueIn(atom', l) ensures l.v != x.v { assert l.v == x.v ==> l == x || l == x.Not(); }
  }

  /** Gaining one. */
  lemma GainsTrue(atom: seq<bool>, c: Clause, x: Lit, numTrue: nat, watch1: nat, watch2: nat)
    requires ClauseOk(atom, c, numTrue, watch1, watch2) && DistinctVars(c) && x.v < |atom| && !TrueIn(atom, x) && x in c
    ensures var atom' := atom[x.v := !atom[x.v]];
      && TrueCount(atom', c) == numTrue + 1 && TrueVar(atom', c, x.v)
      && (numTrue >= 1 ==> watch1 != x.v)
      && (forall u :: TrueVar(atom, c, u) ==> u != x.v && TrueVar(atom', c, u))
  {
    var atom' := atom[x.v := !atom[x.v]];
    CountFlipped(atom, c, x);
    OneSign(c, x);
    assert TrueIn(atom', x);
    forall u | TrueVar(atom, c, u) ensures u != x.v && TrueVar(atom', c, u) {
      var l :| l in c && l.v == u && TrueIn(atom, l);
      assert u == x.v ==> l == x || l == x.Not();
      OtherVarFlipped(atom, c, x, u);
    }
  }

  // ----- the list of false clauses -----

  /** `falseClause[..numfalse]` lists the clauses without a true literal, and `wherefalse` is its inverse. */
  ghost predicate FalseList(numTrue: seq<nat>, numfalse: nat, falseClause: seq<nat>, wherefalse: seq<nat>) {
    && numfalse <= |numTrue| == |falseClause| == |wherefalse|
    && (forall k :: 0 <= k < numfalse ==> falseClause[k] < |numTrue| && numTrue[falseClause[k]] == 0 && wherefalse[falseClause[k]] == k)
    && (forall i :: 0 <= i < |numTrue| && numTrue[i] == 0 ==> wherefalse[i] < numfalse && falseClause[wherefalse[i]] == i)
  }

  ghost function Elems(s: seq<nat>): set<nat> {
    set v | v in s
  }

  lemma {:induction false} ElemsCount(s: seq<nat>)
    requires forall j, k :: 0 <= j < k < |s| ==> s[j] != s[k]
    ensures |Elems(s)| == |s|
  {
    if s != [] {
      var t, x := s[..|s| - 1], s[|s| - 1];
      ElemsCount(t);
      assert s == t + [x];
      assert Elems(s) == Elems(t) + {x};
    } else {
      assert Elems(s) == {};
    }
  }

  /** Different numbers below `n` are at most `n` many. */
  lemma ListedCount(s: seq<nat>, n: nat)
    requires (forall j, k :: 0 <= j < k < |s| ==> s[j] != s[k]) && forall k :: 0 <= k < |s| ==> s[k] < n
    ensures |s| <= n
  {
    ElemsCount(s);
    Trail.SubsetCount(Elems(s), Trail.UpTo(n));
  }

  /** There is room for a clause that is not listed. */
  lemma RoomLeft(numTrue: seq<nat>, numfalse: nat, falseClause: seq<nat>, wherefalse: seq<nat>, i: nat)
    requires FalseList(numTrue, numfalse, falseClause, wherefalse) && i < |numTrue| && numTrue[i] != 0
    ensures numfalse < |numTrue|
  {
    ListedCount(falseClause[..numfalse] + [i], |numTrue|);
  }

  lemma ListAdd(numTrue: seq<nat>, numfalse: nat, falseClause: seq<nat>, wherefalse: seq<nat>, i: nat)
    requires FalseList(numTrue, numfalse, falseClause, wherefalse) && i < |numTrue| && numTrue[i] != 0
    ensures numfalse < |numTrue|
    ensures FalseList(numTrue[i := 0], numfalse + 1, falseClause[numfalse := i], wherefalse[i := numfalse])
  {
    RoomLeft(numTrue, numfalse, falseClause, wherefalse, i);
  }

  /** Taking a clause out by moving the last one into its place. */
  lemma ListRemove(numTrue: seq<nat>, numfalse: nat, falseClause: seq<nat>, wherefalse: seq<nat>, i: nat, x: nat)
    requires FalseList(numTrue, numfalse, falseClause, wherefalse) && i < |numTrue| && numTrue[i] == 0 && x > 0
    ensures numfalse > 0 && wherefalse[i] < |falseClause| && falseClause[numfalse - 1] < |wherefalse|
    ensures var f := falseClause[wherefalse[i] := falseClause[numfalse - 1]];
      f[numfalse - 1] < |wherefalse| && FalseList(numTrue[i := x], numfalse - 1, f, wherefalse[f[numfalse - 1] := wherefalse[i]])
  {
    var last := falseClause[numfalse - 1];
    var f := falseClause[wherefalse[i] := last];
    assert f[numfalse - 1] == last;
  }

  lemma ListKept(numTrue: seq<nat>, numfalse: nat, falseClause: seq<nat>, wherefalse: seq<nat>, i: nat, x: nat)
    requires FalseList(numTrue, numfalse, falseClause, wherefalse) && i < |numTrue| && numTrue[i] > 0 && x > 0
    ensures FalseList(numTrue[i := x], numfalse, falseClause, wherefalse)
  {
  }

  // ----- the local search -----

  class LocalSearch {
    const clauses: seq<Clause>
    const weightClause: seq<nat>
    /** The clauses in which each literal occurs. */
    const occurence: map<Lit, seq<nat>>
    var atom: seq<bool>
    var numtruelit: seq<nat>
    var watch1: seq<nat>
    var watch2: seq<nat>
    var makecount: seq<nat>
    var breakcount: seq<nat>
    var numfalse: nat
    var falseClause: seq<nat>
    var wherefalse: seq<nat>

    constructor (clauses: seq<Clause>, weightClause: seq<nat>, occurence: map<Lit, seq<nat>>, atom: seq<bool>)
      requires InputOk(clauses, weightClause, occurence, |atom|)
      ensures this.clauses == clauses && this.weightClause == weightClause && this.occurence == occurence && this.atom == atom && Shaped()
    {
      this.clauses, this.weightClause, this.occurence, this.atom := clauses, weightClause, occurence, atom;
      numtruelit, watch1, watch2, falseClause, wherefalse := Zeros(|clauses|), Zeros(|clauses|), Zeros(|clauses|), Zeros(|clauses|), Zeros(|clauses|);
      makecount, breakcount, numfalse := Zeros(|atom|), Zeros(|atom|), 0;
    }

    /** The arrays have the right sizes, and the occurrence lists are right. */
    ghost predicate Shaped()
      reads this
    {
      && InputOk(clauses, weightClause, occurence, |atom|)
      && |numtruelit| == |watch1| == |watch2| == |clauses|
      && |makecount| == |breakcount| == |atom|
    }

    /** The sums and the list agree with the counts and watches, whatever those are. */
    ghost predicate Summed()
      reads this
    {
      && Shaped() && FalseList(numtruelit, numfalse, falseClause, wherefalse)
      && (forall u :: 0 <= u < |atom| ==> makecount[u] == MakeSum(clauses, weightClause, numtruelit, u, |clauses|))
      && (forall u :: 0 <= u < |atom| ==> breakcount[u] == BreakSum(weightClause, numtruelit, watch1, u, |clauses|))
    }

    ghost predicate ClauseAt(a: seq<bool>, i: nat)
      requires Shaped() && i < |clauses|
      reads this
    {
      ClauseOk(a, clauses[i], numtruelit[i], watch1[i], watch2[i])
    }

    /** Everything agrees with the assignment. */
    ghost predicate Valid()
      reads this
    {
      Summed() && forall i :: 0 <= i < |clauses| ==> ClauseAt(atom, i)
    }

    /** Adds to or takes from the make counts of the variables of a clause. */
    method ChangeMake(c: Clause, w: nat, add: bool)
      requires DistinctVars(c) && (forall l :: l in c ==> l.v < |makecount|)
      requires !add ==> forall l :: l in c ==> makecount[l.v] >= w
      modifies this`makecount
      ensures |makecount| == |old(makecount)|
      ensures forall u :: 0 <= u < |makecount| ==>
        if add then makecount[u] == old(makecount)[u] + If(Mentions(c, u), w) else makecount[u] + If(Mentions(c, u), w) == old(makecount)[u]
    {
      var j := 0;
      while j < |c|
        invariant 0 <= j <= |c| && |makecount| == |old(makecount)|
        invariant forall u :: 0 <= u < |makecount| ==>
          if add then makecount[u] == old(makecount)[u] + If(Mentions(c[..j], u), w) else makecount[u] + If(Mentions(c[..j], u), w) == old(makecount)[u]
      {
        var l := c[j];
        assert l in c;
        MentionsNext(c, j);
        makecount := makecount[l.v := if add then makecount[l.v] + w else makecount[l.v] - w];
        j := j + 1;
      }
      assert c[..j] == c;
    }

    /** Only the counters of clause `i` have changed. */
    twostate predicate OthersSame(i: nat)
      reads this
    {
      && |numtruelit| == |old(numtruelit)| && |watch1| == |old(watch1)| && |watch2| == |old(watch2)|
      && forall k :: 0 <= k < |numtruelit| && k < |watch1| && k < |watch2| && k != i ==>
        numtruelit[k] == old(numtruelit)[k] && watch1[k] == old(watch1)[k] && watch2[k] == old(watch2)[k]
    }

    /** A clause loses its last true literal. */
    method BecomesFalse(index: nat, v: nat)
      requires Summed() && index < |clauses| && numtruelit[index] == 1 && watch1[index] == v && v < |atom|
      modifies this`numtruelit, this`makecount, this`breakcount, this`numfalse, this`falseClause, this`wherefalse
      ensures Summed() && numtruelit == old(numtruelit)[index := 0]
    {
      hide FalseList, MakeSum, BreakSum;
      ListAdd(numtruelit, numfalse, falseClause, wherefalse, index);
      ListSizes(numtruelit, numfalse, falseClause, wherefalse);
      var w := weightClause[index];
      var c := clauses[index];
      SumsChanged(index, 0, watch1[index]);
      assert watch1[index := watch1[index]] == watch1;
      numtruelit := numtruelit[index := 0];
      wherefalse := wherefalse[index := numfalse];
      falseClause := falseClause[numfalse := index];
      numfalse := numfalse + 1;
      breakcount := breakcount[v := breakcount[v] - w];
      ChangeMake(c, w, true);
    }

    /** A clause keeps one true literal. */
    method BecomesCritical(index: nat, v: nat)
      requires Summed() && index < |clauses| && numtruelit[index] == 2 && watch1[index] < |atom| && watch2[index] < |atom|
      modifies this`numtruelit, this`watch1, this`breakcount
      ensures Summed() && numtruelit == old(numtruelit)[index := 1]
      ensures watch1 == old(watch1)[index := if old(watch1)[index] == v then watch2[index] else old(watch1)[index]]
    {
      hide FalseList, MakeSum, BreakSum;
      ListKept(numtruelit, numfalse, falseClause, wherefalse, index, 1);
      var w := weightClause[index];
      ghost var y := if watch1[index] == v then watch2[index] else watch1[index];
      SumsChanged(index, 1, y);
      numtruelit := numtruelit[index := 1];
      if watch1[index] == v { watch1 := watch1[index := watch2[index]]; }
      assert watch1 == old(watch1)[index := y];
      breakcount := breakcount[watch1[index] := breakcount[watch1[index]] + w];
    }

    /** Another true literal than the watched ones. */
    method FindOther(c: Clause, a: nat, b: nat) returns (r: nat)
      requires DistinctVars(c) && exists l :: l in c && TrueIn(atom, l) && l.v != a && l.v != b
      ensures TrueVar(atom, c, r) && r != a && r != b
    {
      var j := 0;
      while !(TrueIn(atom, c[j]) && c[j].v != a && c[j].v != b)
        invariant 0 <= j < |c| && forall k :: 0 <= k < j ==> !(TrueIn(atom, c[k]) && c[k].v != a && c[k].v != b)
        decreases |c| - j
      {
        assert exists k :: j < k < |c| && TrueIn(atom, c[k]) && c[k].v != a && c[k].v != b by {
          var l :| l in c && TrueIn(atom, l) && l.v != a && l.v != b;
          var k :| 0 <= k < |c| && c[k] == l;
          assert k > j;
        }
        j := j + 1;
      }
      assert c[j] in c;
      r := c[j].v;
    }

    /** A clause keeps several true literals; a watch on the flipped variable moves on. */
    method StaysSatisfied(index: nat, v: nat)
      requires Summed() && index < |clauses| && numtruelit[index] >= 3
      requires watch1[index] != watch2[index]
      requires (watch1[index] != v ==> TrueVar(atom, clauses[index], watch1[index])) && (watch2[index] != v ==> TrueVar(atom, clauses[index], watch2[index]))
      requires !TrueVar(atom, clauses[index], v) && TrueCount(atom, clauses[index]) == numtruelit[index] - 1
      modifies this`numtruelit, this`watch1, this`watch2
      ensures Summed() && numtruelit == old(numtruelit)[index := old(numtruelit)[index] - 1] && OthersSame(index)
      ensures ClauseAt(atom, index)
    {
      hide FalseList, MakeSum, BreakSum, Mentions;
      ghost var x := numtruelit[index] - 1;
      var c := clauses[index];
      ListKept(numtruelit, numfalse, falseClause, wherefalse, index, x);
      if watch1[index] == v {
        CountTwo(atom, c, watch2[index]);
        var r := FindOther(c, watch1[index], watch2[index]);
        SumsChanged(index, x, r);
        watch1 := watch1[index := r];
      } else {
        SumsChanged(index, x, watch1[index]);
        assert watch1[index := watch1[index]] == watch1;
        if watch2[index] == v {
          CountTwo(atom, c, watch1[index]);
          var r := FindOther(c, watch1[index], watch2[index]);
          watch2 := watch2[index := r];
        }
      }
      numtruelit := numtruelit[index := numtruelit[index] - 1];
    }

    /** With another count and first watch for one clause, only its share of the sums changes. */
    lemma SumsChanged(index: nat, x: nat, y: nat)
      requires Summed() && index < |clauses|
      ensures forall u: nat :: u < |atom| ==>
        && breakcount[u] + If(x == 1 && y == u, weightClause[index])
          == BreakSum(weightClause, numtruelit[index := x], watch1[index := y], u, |clauses|)
            + If(numtruelit[index] == 1 && watch1[index] == u, weightClause[index])
        && makecount[u] + If(x == 0 && Mentions(clauses[index], u), weightClause[index])
          == MakeSum(clauses, weightClause, numtruelit[index := x], u, |clauses|)
            + If(numtruelit[index] == 0 && Mentions(clauses[index], u), weightClause[index])
    {
      hide FalseList, MakeSum, BreakSum;
      forall u: nat | u < |atom|
        ensures breakcount[u] + If(x == 1 && y == u, weightClause[index])
          == BreakSum(weightClause, numtruelit[index := x], watch1[index := y], u, |clauses|)
            + If(numtruelit[index] == 1 && watch1[index] == u, weightClause[index])
        ensures makecount[u] + If(x == 0 && Mentions(clauses[index], u), weightClause[index])
          == MakeSum(clauses, weightClause, numtruelit[index := x], u, |clauses|)
            + If(numtruelit[index] == 0 && Mentions(clauses[index], u), weightClause[index])
      {
        BreakChanged(weightClause, numtruelit, watch1, u, |clauses|, index, x, y);
        MakeChanged(clauses, weightClause, numtruelit, u, |clauses|, index, x);
      }
    }

    /** A clause whose true literal `x.Not()` has become false. */
    method LoseTrue(index: nat, x: Lit, ghost a0: seq<bool>)
      requires Summed() && index < |clauses| && x.Not() in clauses[index] && x.v < |a0| && !TrueIn(a0, x)
      requires atom == a0[x.v := !a0[x.v]] && ClauseAt(a0, index)
      modifies this`numtruelit, this`watch1, this`watch2, this`makecount, this`breakcount, this`numfalse, this`falseClause, this`wherefalse
      ensures Summed() && ClauseAt(atom, index) && OthersSame(index)
    {
      hide FalseList, MakeSum, BreakSum;
      var c := clauses[index];
      LosesTrue(a0, c, x, numtruelit[index], watch1[index], watch2[index]);
      TrueBelow(a0, c);
      if numtruelit[index] == 1 {
        BecomesFalse(index, x.v);
      } else if numtruelit[index] == 2 {
        BecomesCritical(index, x.v);
      } else {
        StaysSatisfied(index, x.v);
      }
    }

    /** A false clause gets its first true literal. */
    method BecomesTrue(index: nat, v: nat)
      requires Summed() && index < |clauses| && numtruelit[index] == 0 && v < |atom|
      modifies this`numtruelit, this`watch1, this`makecount, this`breakcount, this`numfalse, this`falseClause, this`wherefalse
      ensures Summed() && numtruelit == old(numtruelit)[index := 1] && watch1 == old(watch1)[index := v]
    {
      hide FalseList, MakeSum, BreakSum;
      ListRemove(numtruelit, numfalse, falseClause, wherefalse, index, 1);
      ListSizes(numtruelit, numfalse, falseClause, wherefalse);
      var w := weightClause[index];
      var c := clauses[index];
      SumsChanged(index, 1, v);
      forall l | l in c ensures makecount[l.v] >= w { assert Mentions(c, l.v); }
      numtruelit := numtruelit[index := 1];
      numfalse := numfalse - 1;
      falseClause := falseClause[wherefalse[index] := falseClause[numfalse]];
      wherefalse := wherefalse[falseClause[numfalse] := wherefalse[index]];
      breakcount := breakcount[v := breakcount[v] + w];
      ChangeMake(c, w, false);
      watch1 := watch1[index := v];
    }

    /** A clause with one true literal gets a second. */
    method NoLongerCritical(index: nat, v: nat)
      requires Summed() && index < |clauses| && numtruelit[index] == 1 && watch1[index] < |atom|
      modifies this`numtruelit, this`watch2, this`breakcount
      ensures Summed() && numtruelit == old(numtruelit)[index := 2] && watch2 == old(watch2)[index := v]
    {
      hide FalseList, MakeSum, BreakSum;
      ListKept(numtruelit, numfalse, falseClause, wherefalse, index, 2);
      var w := weightClause[index];
      SumsChanged(index, 2, watch1[index]);
      assert watch1[index := watch1[index]] == watch1;
      numtruelit := numtruelit[index := 2];
      watch2 := watch2[index := v];
      breakcount := breakcount[watch1[index] := breakcount[watch1[index]] - w];
    }

    /** A clause with at least two true literals gets another. */
    method GetsAnother(index: nat)
      requires Summed() && index < |clauses| && numtruelit[index] >= 2
      modifies this`numtruelit
      ensures Summed() && numtruelit == old(numtruelit)[index := old(numtruelit)[index] + 1]
    {
      hide FalseList, MakeSum, BreakSum, Mentions;
      ListKept(numtruelit, numfalse, falseClause, wherefalse, index, numtruelit[index] + 1);
      SumsChanged(index, numtruelit[index] + 1, watch1[index]);
      assert watch1[index := watch1[index]] == watch1;
      numtruelit := numtruelit[index := numtruelit[index] + 1];
    }

    /** A clause whose literal `x` has become true. */
    method GainTrue(index: nat, x: Lit, ghost a0: seq<bool>)
      requires Summed() && index < |clauses| && x in clauses[index] && x.v < |a0| && !TrueIn(a0, x)
      requires atom == a0[x.v := !a0[x.v]] && ClauseAt(a0, index)
      modifies this`numtruelit, this`watch1, this`watch2, this`makecount, this`breakcount, this`numfalse, this`falseClause, this`wherefalse
      ensures Summed() && ClauseAt(atom, index) && OthersSame(index)
    {
      hide FalseList, MakeSum, BreakSum;
      var c := clauses[index];
      GainsTrue(a0, c, x, numtruelit[index], watch1[index], watch2[index]);
      TrueBelow(a0, c);
      if numtruelit[index] == 0 {
        BecomesTrue(index, x.v);
      } else if numtruelit[index] == 1 {
        NoLongerCritical(index, x.v);
      } else {
        GetsAnother(index);
      }
    }

    /** The clauses in `done` agree with the present assignment, the others with `a0`. */
    ghost predicate Mixed(a0: seq<bool>, done: set<nat>)
      reads this
    {
      Shaped() && |a0| == |atom| && forall i: nat :: i < |clauses| ==> ClauseAt(if i in done then atom else a0, i)
    }

    /** The clauses that do not mention the flipped variable. */
    ghost function Apart(x: Lit): set<nat> {
      set i: nat | 0 <= i < |clauses| && x !in clauses[i] && x.Not() !in clauses[i]
    }

    /** Flips the variable of a false literal, updating every counter. */
    method FlipAtom(toflip: Option<Lit>)
      requires Valid() && (toflip.Some? ==> toflip.value.v < |atom|)
      modifies this
      ensures Valid()
      ensures toflip.None? || TrueIn(old(atom), toflip.value) ==> atom == old(atom)
      ensures toflip.Some? && !TrueIn(old(atom), toflip.value) ==> atom == old(atom)[toflip.value.v := !toflip.value.neg]
    {
      hide FalseList, MakeSum, BreakSum, ClauseOk;
      if toflip.None? || TrueIn(atom, toflip.value) { return; }
      var x := toflip.value;
      ghost var a0 := atom;
      SetAtom(x);
      LoseAll(x, a0);
      GainAll(x, a0);
      FlipDone(x, a0);
    }

    lemma StartFlip(x: Lit)
      requires Valid() && x.v < |atom| && !TrueIn(atom, x)
      ensures Occurrences(clauses, occurence, x) && Occurrences(clauses, occurence, x.Not())
      ensures forall i: nat :: i < |clauses| && i in Apart(x) ==> ClauseAt(atom[x.v := !atom[x.v]], i)
    {
      hide FalseList;
      forall i: nat | i < |clauses| && i in Apart(x) ensures ClauseAt(atom[x.v := !atom[x.v]], i) {
        assert ClauseAt(atom, i);
        Untouched(atom, clauses[i], x, numtruelit[i], watch1[i], watch2[i]);
      }
    }

    /** The assignment alone, the counters still those of before. */
    method SetAtom(x: Lit)
      requires Valid() && x.v < |atom| && !TrueIn(atom, x)
      modifies this`atom
      ensures Summed() && atom == old(atom)[x.v := !old(atom)[x.v]] && Mixed(old(atom), Apart(x))
      ensures Occurrences(clauses, occurence, x) && Occurrences(clauses, occurence, x.Not())
    {
      hide FalseList, MakeSum, BreakSum, ClauseOk, Occurrences;
      StartFlip(x);
      ghost var a0 := atom;
      forall i: nat | i < |clauses| ensures ClauseOk(a0, clauses[i], numtruelit[i], watch1[i], watch2[i]) { assert ClauseAt(a0, i); }
      ghost var a1 := atom[x.v := !atom[x.v]];
      forall i: nat | i < |clauses| && i in Apart(x) ensures ClauseOk(a1, clauses[i], numtruelit[i], watch1[i], watch2[i]) { assert ClauseAt(a1, i); }
      atom := atom[x.v := !atom[x.v]];
    }

    method LoseAt(index: nat, x: Lit, ghost a0: seq<bool>, ghost done: set<nat>)
      requires Summed() && index < |clauses| && x.Not() in clauses[index] && x.v < |a0| && !TrueIn(a0, x)
      requires atom == a0[x.v := !a0[x.v]] && Mixed(a0, done) && index !in done
      modifies this`numtruelit, this`watch1, this`watch2, this`makecount, this`breakcount, this`numfalse, this`falseClause, this`wherefalse
      ensures Summed() && Mixed(a0, done + {index})
    {
      hide FalseList, MakeSum, BreakSum, ClauseOk, InputOk;
      assert ClauseAt(a0, index);
      LoseTrue(index, x, a0);
    }

    method GainAt(index: nat, x: Lit, ghost a0: seq<bool>, ghost done: set<nat>)
      requires Summed() && index < |clauses| && x in clauses[index] && x.v < |a0| && !TrueIn(a0, x)
      requires atom == a0[x.v := !a0[x.v]] && Mixed(a0, done) && index !in done
      modifies this`numtruelit, this`watch1, this`watch2, this`makecount, this`breakcount, this`numfalse, this`falseClause, this`wherefalse
      ensures Summed() && Mixed(a0, done + {index})
    {
      hide FalseList, MakeSum, BreakSum, ClauseOk, InputOk;
      assert ClauseAt(a0, index);
      GainTrue(index, x, a0);
    }

    /** The clauses with the negated literal lose a true one. */
    method LoseAll(x: Lit, ghost a0: seq<bool>)
      requires Summed() && x.v < |a0| && !TrueIn(a0, x) && atom == a0[x.v := !a0[x.v]] && Mixed(a0, Apart(x))
      requires Occurrences(clauses, occurence, x.Not())
      modifies this`numtruelit, this`watch1, this`watch2, this`makecount, this`breakcount, this`numfalse, this`falseClause, this`wherefalse
      ensures Summed() && Mixed(a0, Apart(x) + Elems(occurence[x.Not()]))
    {
      hide FalseList, MakeSum, BreakSum, ClauseOk, InputOk;
      var occ := occurence[x.Not()];
      var i := 0;
      assert Apart(x) + Elems(occ[..0]) == Apart(x);
      while i < |occ|
        invariant 0 <= i <= |occ| && Summed() && Mixed(a0, Apart(x) + Elems(occ[..i]))
      {
        ghost var done := Apart(x) + Elems(occ[..i]);
        var index := occ[i];
        assert index in occ;
        NotYet(occ, i);
        LoseAt(index, x, a0, done);
        assert done + {index} == Apart(x) + Elems(occ[..i + 1]) by { assert occ[..i + 1] == occ[..i] + [index]; }
        i := i + 1;
      }
      assert occ[..i] == occ;
    }

    /** The clauses with the literal gain a true one. */
    method GainAll(x: Lit, ghost a0: seq<bool>)
      requires Summed() && x.v < |a0| && !TrueIn(a0, x) && atom == a0[x.v := !a0[x.v]] && Mixed(a0, Apart(x) + Elems(occurence[x.Not()]))
      requires Occurrences(clauses, occurence, x) && Occurrences(clauses, occurence, x.Not())
      modifies this`numtruelit, this`watch1, this`watch2, this`makecount, this`breakcount, this`numfalse, this`falseClause, this`wherefalse
      ensures Summed() && Mixed(a0, Apart(x) + Elems(occurence[x.Not()]) + Elems(occurence[x]))
    {
      hide FalseList, MakeSum, BreakSum, ClauseOk;
      var occ := occurence[x];
      ghost var base := Apart(x) + Elems(occurence[x.Not()]);
      var i := 0;
      assert base + Elems(occ[..0]) == base;
      while i < |occ|
        invariant 0 <= i <= |occ| && Summed() && Mixed(a0, base + Elems(occ[..i]))
      {
        ghost var done := base + Elems(occ[..i]);
        var index := occ[i];
        assert index in occ;
        NotYet(occ, i);
        OneSign(clauses[index], x);
        assert index !in done;
        GainAt(index, x, a0, done);
        assert done + {index} == base + Elems(occ[..i + 1]) by { assert occ[..i + 1] == occ[..i] + [index]; }
        i := i + 1;
      }
      assert occ[..i] == occ;
    }

    lemma FlipDone(x: Lit, a0: seq<bool>)
      requires Summed() && Occurrences(clauses, occurence, x) && Occurrences(clauses, occurence, x.Not())
      requires Mixed(a0, Apart(x) + Elems(occurence[x.Not()]) + Elems(occurence[x]))
      ensures Valid()
    {
      hide FalseList, MakeSum, BreakSum, ClauseOk;
      var done := Apart(x) + Elems(occurence[x.Not()]) + Elems(occurence[x]);
      forall i: nat | i < |clauses| ensures ClauseAt(atom, i) { assert i in done; }
    }

    /** The number of true literals of a clause, with the variables of the first two. */
    method CountTrue(c: Clause) returns (n: nat, first: Option<nat>, second: Option<nat>)
      requires DistinctVars(c)
      ensures n == TrueCount(atom, c)
      ensures n >= 1 ==> first.Some? && TrueVar(atom, c, first.value)
      ensures n >= 2 ==> second.Some? && TrueVar(atom, c, second.value) && first.value != second.value
    {
      n, first, second := 0, None, None;
      var j := 0;
      while j < |c|
        invariant 0 <= j <= |c| && n == TrueCount(atom, c[..j])
        invariant (first.Some? <==> n >= 1) && (second.Some? <==> n >= 2)
        invariant first.Some? ==> TrueVar(atom, c[..j], first.value)
        invariant second.Some? ==> TrueVar(atom, c[..j], second.value) && first.value != second.value
      {
        CountNext(atom, c, j);
        if TrueIn(atom, c[j]) {
          n := n + 1;
          if first.None? {
            first := Some(c[j].v);
          } else if second.None? {
            second := Some(c[j].v);
          }
        }
        j := j + 1;
      }
      assert c[..j] == c;
    }

    /** The counters agree with the assignment on the first `n` clauses. */
    ghost predicate ValidTo(n: nat)
      reads this
    {
      && Shaped() && n <= |clauses| && FalsePrefix(numtruelit, n, numfalse, falseClause, wherefalse)
      && (forall u :: 0 <= u < |atom| ==> makecount[u] == MakeSum(clauses, weightClause, numtruelit, u, n))
      && (forall u :: 0 <= u < |atom| ==> breakcount[u] == BreakSum(weightClause, numtruelit, watch1, u, n))
      && forall i: nat :: i < n ==> ClauseAt(atom, i)
    }

    /** Counts every clause anew. */
    method InitVariableRL()
      requires Shaped() && |falseClause| == |wherefalse| == |clauses|
      modifies this`numtruelit, this`watch1, this`watch2, this`makecount, this`breakcount, this`numfalse, this`falseClause, this`wherefalse
      ensures Valid()
    {
      hide FalsePrefix, FalseList, ClauseOk;
      numfalse, makecount, breakcount := 0, Zeros(|atom|), Zeros(|atom|);
      PrefixEmpty(numtruelit, falseClause, wherefalse);
      var i := 0;
      while i < |clauses|
        invariant 0 <= i <= |clauses| && ValidTo(i)
      {
        InitClause(i);
        i := i + 1;
      }
      PrefixWhole(numtruelit, numfalse, falseClause, wherefalse);
    }

    method InitClause(i: nat)
      requires i < |clauses| && ValidTo(i)
      modifies this`numtruelit, this`watch1, this`watch2, this`makecount, this`breakcount, this`numfalse, this`falseClause, this`wherefalse
      ensures ValidTo(i + 1)
    {
      hide FalsePrefix, FalseList, MakeSum, BreakSum, Mentions;
      var c, w := clauses[i], weightClause[i];
      var n, first, second := CountTrue(c);
      TrueBelow(atom, c);
      PrefixSizes(numtruelit, i, numfalse, falseClause, wherefalse);
      PrefixNext(numtruelit, i, numfalse, falseClause, wherefalse, n);
      ghost var y := if n >= 1 then first.value else watch1[i];
      SumsNext(i, n, y);
      forall k: nat | k < i ensures ClauseOk(atom, clauses[k], numtruelit[k], watch1[k], watch2[k]) { assert ClauseAt(atom, k); }
      numtruelit := numtruelit[i := n];
      if n == 0 {
        wherefalse := wherefalse[i := numfalse];
        falseClause := falseClause[numfalse := i];
        numfalse := numfalse + 1;
        ChangeMake(c, w, true);
        assert watch1[i := y] == watch1;
      } else if n == 1 {
        breakcount := breakcount[first.value := breakcount[first.value] + w];
        watch1 := watch1[i := first.value];
      } else {
        watch1 := watch1[i := first.value];
        watch2 := watch2[i := second.value];
      }
      assert ClauseAt(atom, i);
    }

    lemma SumsNext(i: nat, x: nat, y: nat)
      requires i < |clauses| && Shaped()
      ensures forall u: nat :: u < |atom| ==>
        && MakeSum(clauses, weightClause, numtruelit[i := x], u, i + 1)
          == MakeSum(clauses, weightClause, numtruelit, u, i) + If(x == 0 && Mentions(clauses[i], u), weightClause[i])
        && BreakSum(weightClause, numtruelit[i := x], watch1[i := y], u, i + 1)
          == BreakSum(weightClause, numtruelit, watch1, u, i) + If(x == 1 && y == u, weightClause[i])
    {
      forall u: nat | u < |atom|
        ensures MakeSum(clauses, weightClause, numtruelit[i := x], u, i + 1)
          == MakeSum(clauses, weightClause, numtruelit, u, i) + If(x == 0 && Mentions(clauses[i], u), weightClause[i])
        ensures BreakSum(weightClause, numtruelit[i := x], watch1[i := y], u, i + 1)
          == BreakSum(weightClause, numtruelit, watch1, u, i) + If(x == 1 && y == u, weightClause[i])
      {
        MakeChanged(clauses, weightClause, numtruelit, u, i, i, x);
        BreakChanged(weightClause, numtruelit, watch1, u, i, i, x, y);
      }
    }

    /** The counters equal a recount, and predict what a flip does to the weight of the false clauses. */
    lemma Recounted()
      requires Valid()
      ensures forall u: nat :: u < |atom| ==> makecount[u] == MakeOf(atom, clauses, weightClause, u, |clauses|)
      ensures forall u: nat :: u < |atom| ==> breakcount[u] == BreakOf(atom, clauses, weightClause, u, |clauses|)
      ensures Elems(FalseClauses()) == set i: nat | i < |clauses| && FalseAt(atom, clauses[i])
      ensures |set i: nat | i < |clauses| && FalseAt(atom, clauses[i])| == numfalse
      ensures forall u: nat :: u < |atom| ==>
        FalseWeight(atom[u := !atom[u]], clauses, weightClause, |clauses|) + makecount[u]
          == FalseWeight(atom, clauses, weightClause, |clauses|) + breakcount[u]
    {
      hide FalseList, MakeSum, BreakSum, FalseWeight, MakeOf, BreakOf;
      forall u: nat | u < |atom|
        ensures makecount[u] == MakeOf(atom, clauses, weightClause, u, |clauses|) && breakcount[u] == BreakOf(atom, clauses, weightClause, u, |clauses|)
        ensures FalseWeight(atom[u := !atom[u]], clauses, weightClause, |clauses|) + makecount[u]
          == FalseWeight(atom, clauses, weightClause, |clauses|) + breakcount[u]
      {
        forall i: nat | i < |clauses| ensures ClauseOk(atom, clauses[i], numtruelit[i], watch1[i], watch2[i]) && DistinctVars(clauses[i]) {
          assert ClauseAt(atom, i);
        }
        SumsAre(atom, clauses, weightClause, numtruelit, watch1, watch2, u, |clauses|);
        FlipScore(atom, clauses, weightClause, u, |clauses|);
      }
      FalseListed();
    }

    ghost function FalseClauses(): seq<nat>
      requires Summed()
      reads this
    {
      falseClause[..numfalse]
    }

    lemma FalseListed()
      requires Valid()
      ensures Elems(FalseClauses()) == set i: nat | i < |clauses| && FalseAt(atom, clauses[i])
      ensures |Elems(FalseClauses())| == numfalse
    {
      var s := FalseClauses();
      ElemsCount(s);
      forall i: nat ensures i in s <==> i < |clauses| && FalseAt(atom, clauses[i]) {
        if i < |clauses| {
          assert ClauseAt(atom, i);
          CountZero(atom, clauses[i]);
          if FalseAt(atom, clauses[i]) { assert s[wherefalse[i]] == i; }
        }
      }
    }
  }

  predicate FalseAt(atom: seq<bool>, c: Clause) {
    forall l :: l in c ==> !TrueIn(atom, l)
  }

  /** The clause hangs on variable `u` alone. */
  ghost predicate Critical(atom: seq<bool>, c: Clause, u: nat) {
    TrueVar(atom, c, u) && forall l :: l in c && TrueIn(atom, l) ==> l.v == u
  }

  // ----- recounting -----

  /** Weight of the false clauses that flipping `u` would satisfy. */
  ghost function MakeOf(atom: seq<bool>, cs: seq<Clause>, ws: seq<nat>, u: nat, n: nat): nat
    requires n <= |cs| == |ws|
  {
    if n == 0 then 0 else MakeOf(atom, cs, ws, u, n - 1) + If(FalseAt(atom, cs[n - 1]) && Mentions(cs[n - 1], u), ws[n - 1])
  }

  /** Weight of the clauses that flipping `u` would falsify. */
  ghost function BreakOf(atom: seq<bool>, cs: seq<Clause>, ws: seq<nat>, u: nat, n: nat): nat
    requires n <= |cs| == |ws|
  {
    if n == 0 then 0 else BreakOf(atom, cs, ws, u, n - 1) + If(Critical(atom, cs[n - 1], u), ws[n - 1])
  }

  ghost function FalseWeight(atom: seq<bool>, cs: seq<Clause>, ws: seq<nat>, n: nat): nat
    requires n <= |cs| == |ws|
  {
    if n == 0 then 0 else FalseWeight(atom, cs, ws, n - 1) + If(FalseAt(atom, cs[n - 1]), ws[n - 1])
  }

  lemma CriticalIs(atom: seq<bool>, c: Clause, numTrue: nat, watch1: nat, watch2: nat, u: nat)
    requires ClauseOk(atom, c, numTrue, watch1, watch2) && DistinctVars(c)
    ensures Critical(atom, c, u) <==> numTrue == 1 && watch1 == u
    ensures FalseAt(atom, c) <==> numTrue == 0
  {
    CountZero(atom, c);
    if TrueVar(atom, c, u) { CountTwo(atom, c, u); }
    if numTrue >= 1 { CountTwo(atom, c, watch1); }
  }

  lemma {:induction false} SumsAre(atom: seq<bool>, cs: seq<Clause>, ws: seq<nat>, numTrue: seq<nat>, watch1: seq<nat>, watch2: seq<nat>, u: nat, n: nat)
    requires n <= |cs| == |ws| == |numTrue| == |watch1| == |watch2|
    requires forall i: nat :: i < n ==> ClauseOk(atom, cs[i], numTrue[i], watch1[i], watch2[i]) && DistinctVars(cs[i])
    ensures MakeSum(cs, ws, numTrue, u, n) == MakeOf(atom, cs, ws, u, n)
    ensures BreakSum(ws, numTrue, watch1, u, n) == BreakOf(atom, cs, ws, u, n)
  {
    if n > 0 {
      SumsAre(atom, cs, ws, numTrue, watch1, watch2, u, n - 1);
      CriticalIs(atom, cs[n - 1], numTrue[n - 1], watch1[n - 1], watch2[n - 1], u);
    }
  }

  /** One clause under a flip: it becomes true when false and mentioning the variable, false when it hangs on it. */
  lemma FlipOne(atom: seq<bool>, c: Clause, u: nat)
    requires DistinctVars(c) && u < |atom|
    ensures FalseAt(atom[u := !atom[u]], c) <==> (FalseAt(atom, c) && !Mentions(c, u)) || Critical(atom, c, u)
  {
    var atom' := atom[u := !atom[u]];
    if FalseAt(atom', c) {
      if Mentions(c, u) {
        var l :| l in c && l.v == u;
        assert TrueIn(atom, l);
        assert TrueVar(atom, c, u);
        forall q | q in c && TrueIn(atom, q) ensures q.v == u { assert !TrueIn(atom', q); }
      } else {
        forall q | q in c ensures !TrueIn(atom, q) { assert !TrueIn(atom', q); }
      }
    }
    if FalseAt(atom, c) && !Mentions(c, u) {
      forall q | q in c ensures !TrueIn(atom', q) { assert q.v != u; }
    }
    if Critical(atom, c, u) {
      var l :| l in c && l.v == u && TrueIn(atom, l);
      forall q | q in c ensures !TrueIn(atom', q) { if q.v == u { SameVar(c, l, q); } }
    }
  }

  lemma SameVar(c: Clause, l: Lit, q: Lit)
    requires DistinctVars(c) && l in c && q in c && l.v == q.v
    ensures l == q
  {
    var i :| 0 <= i < |c| && c[i] == l;
    var j :| 0 <= j < |c| && c[j] == q;
  }

  lemma {:induction false} FlipScore(atom: seq<bool>, cs: seq<Clause>, ws: seq<nat>, u: nat, n: nat)
    requires n <= |cs| == |ws| && u < |atom| && forall i :: 0 <= i < |cs| ==> DistinctVars(cs[i])
    ensures FalseWeight(atom[u := !atom[u]], cs, ws, n) + MakeOf(atom, cs, ws, u, n) == FalseWeight(atom, cs, ws, n) + BreakOf(atom, cs, ws, u, n)
  {
    if n > 0 {
      FlipScore(atom, cs, ws, u, n - 1);
      FlipOne(atom, cs[n - 1], u);
    }
  }

  // ----- building the list -----

  /** As `FalseList`, for the first `n` clauses only. */
  ghost predicate FalsePrefix(numTrue: seq<nat>, n: nat, numfalse: nat, falseClause: seq<nat>, wherefalse: seq<nat>) {
    && numfalse <= n <= |numTrue| == |falseClause| == |wherefalse|
    && (forall k :: 0 <= k < numfalse ==> falseClause[k] < n && numTrue[falseClause[k]] == 0 && wherefalse[falseClause[k]] == k)
    && (forall i :: 0 <= i < n && numTrue[i] == 0 ==> wherefalse[i] < numfalse && falseClause[wherefalse[i]] == i)
  }

  lemma PrefixEmpty(numTrue: seq<nat>, falseClause: seq<nat>, wherefalse: seq<nat>)
    requires |numTrue| == |falseClause| == |wherefalse|
    ensures FalsePrefix(numTrue, 0, 0, falseClause, wherefalse)
  {
  }

  lemma PrefixSizes(numTrue: seq<nat>, n: nat, numfalse: nat, falseClause: seq<nat>, wherefalse: seq<nat>)
    requires FalsePrefix(numTrue, n, numfalse, falseClause, wherefalse)
    ensures numfalse <= n <= |numTrue| == |falseClause| == |wherefalse|
  {
  }

  lemma PrefixWhole(numTrue: seq<nat>, numfalse: nat, falseClause: seq<nat>, wherefalse: seq<nat>)
    requires FalsePrefix(numTrue, |numTrue|, numfalse, falseClause, wherefalse)
    ensures FalseList(numTrue, numfalse, falseClause, wherefalse)
  {
  }

  lemma PrefixNext(numTrue: seq<nat>, n: nat, numfalse: nat, falseClause: seq<nat>, wherefalse: seq<nat>, x: nat)
    requires FalsePrefix(numTrue, n, numfalse, falseClause, wherefalse) && n < |numTrue|
    ensures x == 0 ==> FalsePrefix(numTrue[n := 0], n + 1, numfalse + 1, falseClause[numfalse := n], wherefalse[n := numfalse])
    ensures x > 0 ==> FalsePrefix(numTrue[n := x], n + 1, numfalse, falseClause, wherefalse)
  {
  }

  lemma CountNext(atom: seq<bool>, c: Clause, j: nat)
    requires j < |c| && DistinctVars(c)
    ensures TrueCount(atom, c[..j + 1]) == TrueCount(atom, c[..j]) + if TrueIn(atom, c[j]) then 1 else 0
    ensures forall u: nat :: TrueVar(atom, c[..j], u) ==> TrueVar(atom, c[..j + 1], u) && u != c[j].v
    ensures TrueIn(atom, c[j]) ==> TrueVar(atom, c[..j + 1], c[j].v)
  {
    assert c[..j + 1][..j] == c[..j];
    assert c[..j + 1] == c[..j] + [c[j]];
    forall u: nat | TrueVar(atom, c[..j], u) ensures TrueVar(atom, c[..j + 1], u) && u != c[j].v {
      var l :| l in c[..j] && l.v == u && TrueIn(atom, l);
      assert l in c[..j + 1];
    }
    assert c[j] in c[..j + 1];
  }

  lemma NotYet(occ: seq<nat>, i: nat)
    requires i < |occ| && forall j, k :: 0 <= j < k < |occ| ==> occ[j] != occ[k]
    ensures occ[i] !in occ[..i]
  {
  }

  lemma TrueBelow(atom: seq<bool>, c: Clause)
    ensures forall u: nat :: TrueVar(atom, c, u) ==> u < |atom|
  {
  }

  lemma ListSizes(numTrue: seq<nat>, numfalse: nat, falseClause: seq<nat>, wherefalse: seq<nat>)
    requires FalseList(numTrue, numfalse, falseClause, wherefalse)
    ensures |falseClause| == |wherefalse| == |numTrue| && numfalse <= |numTrue|
  {
  }

  lemma MentionsNext(c: Clause, j: nat)
    requires DistinctVars(c) && j < |c|
    ensures forall u :: Mentions(c[..j + 1], u) <==> Mentions(c[..j], u) || u == c[j].v
    ensures !Mentions(c[..j], c[j].v)
  {
    assert c[..j + 1] == c[..j] + [c[j]];
    forall l | l in c[..j] ensures l.v != c[j].v { }
    forall u ensures Mentions(c[..j + 1], u) <==> Mentions(c[..j], u) || u == c[j].v {
      if Mentions(c[..j], u) {
        var l :| l in c[..j] && l.v == u;
        assert l in c[..j + 1];
      }
      if Mentions(c[..j + 1], u) {
        var l :| l in c[..j + 1] && l.v == u;
        assert l in c[..j] || l == c[j];
      }
      assert c[j] in c[..j + 1];
    }
  }

  function Zeros(n: nat): seq<nat> {
    seq(n, i => 0)
  }

  ghost predicate Occurrences(clauses: seq<Clause>, occurence: map<Lit, seq<nat>>, l: Lit) {
    && l in occurence && (forall i: nat :: i in occurence[l] <==> i < |clauses| && l in clauses[i])
    && forall j, k :: 0 <= j < k < |occurence[l]| ==> occurence[l][j] != occurence[l][k]
  }

  /** Clauses have no repeated variable, and every literal lists the clauses it occurs in once. */
  ghost predicate InputOk(clauses: seq<Clause>, ws: seq<nat>, occurence: map<Lit, seq<nat>>, n: nat) {
    && |ws| == |clauses|
    && (forall i :: 0 <= i < |clauses| ==> DistinctVars(clauses[i]) && forall l :: l in clauses[i] ==> l.v < n)
    && (forall l: Lit :: l.v < n ==> Occurrences(clauses, occurence, l))
  }
}
