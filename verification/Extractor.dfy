/** Extraction of one coMSS: the selectors that cannot be added to a maximal set of satisfied ones. */
module CoMssExtractor {
  import opened Cnf
  import opened Trail
  import opened Database
  import Clauses
  import opened CdclSolver
  import opened Selectors
  import opened SoftMss

  /** Where a selector goes after a satisfiable call. */
  datatype Placing = ToMss | ToCoMss | Unknown

  class Extractor {
    const slv: Solver
    var selectors: seq<Lit>
    /** The stored soft clause of each fresh selector variable. */
    var stored: map<nat, Clause>
    /** The selector of each soft clause, and the soft clauses of each selector. */
    var orgID2in: seq<Option<Lit>>
    var mapIdxClause: map<Lit, seq<nat>>
    /** 1 or 2 for a variable assumed positively or negatively, 0 otherwise. */
    var markedSelector: seq<nat>
    /** The assumptions of the current enumeration. */
    var strongAssums: seq<Lit>
    /** Values of the last satisfiable call. */
    var model: seq<bool>

    constructor (s: Solver)
      ensures slv == s && selectors == [] && stored == map[] && orgID2in == [] && mapIdxClause == map[] && strongAssums == []
    {
      slv := s;
      selectors, stored, markedSelector, strongAssums, model := [], map[], [], [], [];
      orgID2in, mapIdxClause := [], map[];
    }

    ghost predicate SelectorsOk()
      reads this, slv
    {
      && (forall l :: l in selectors ==> l.v < |slv.assigns| && (l.v in stored ==> !l.neg))
      && (forall i, j :: 0 <= i < j < |selectors| ==> selectors[i] != selectors[j])
      && (forall v :: v in stored ==> forall l :: l in stored[v] ==> l.v < |slv.assigns|)
      && (forall l :: l in strongAssums ==> l.v < |slv.assigns|)
      && FreshOk(slv.theory, stored, strongAssums)
    }

    ghost predicate Valid()
      reads this, slv
    {
      slv.Idle() && SelectorsOk()
    }

    function ModelValue(l: Lit): bool
      reads this
    {
      (if l.v < |model| then model[l.v] else true) != l.neg
    }

    /** Whether the last model satisfies the soft clause that `l` selects. */
    method IsSat(l: Lit) returns (r: bool)
      ensures r <==> SelSat(stored, l, AsAssignment(model)) || (l.v in stored && l.neg && ModelValue(l))
    {
      if l.v !in stored || l.neg {
        return ModelValue(l);
      }
      var c := stored[l.v];
      var k := 0;
      r := false;
      while k < |c| && !r
        invariant 0 <= k <= |c|
        invariant r <==> exists j :: 0 <= j < k && c[j].v != l.v && True(AsAssignment(model), c[j])
      {
        r := c[k].v != l.v && ModelValue(c[k]);
        k := k + 1;
      }
      assert r ==> OtherTrue(c, l.v, AsAssignment(model));
    }

    /** Decides about one selector by its mark or by the last model. */
    method Place(l: Lit, ghost q: seq<Lit>) returns (place: Placing)
      requires MarksOk(markedSelector, q) && l.v < |markedSelector| && (l.v in stored ==> !l.neg)
      modifies this`markedSelector
      ensures |markedSelector| == |old(markedSelector)|
      ensures place.ToMss? ==> MarksOk(markedSelector, q + [l]) && (l in q || SelSat(stored, l, AsAssignment(model)))
      ensures place.ToCoMss? ==> MarksOk(markedSelector, q) && l.Not() in q
      ensures place.Unknown? ==> MarksOk(markedSelector, q) && markedSelector == old(markedSelector)
      ensures place.Unknown? ==> markedSelector[l.v] == 0 && !SelSat(stored, l, AsAssignment(model))
      ensures forall v :: 0 <= v < |markedSelector| && old(markedSelector)[v] != 0 ==> markedSelector[v] == old(markedSelector)[v]
    {
      hide MarksOk, SelSat;
      if markedSelector[l.v] != 0 {
        MarkedMeans(markedSelector, q, l);
        if markedSelector[l.v] != (if l.neg then 2 else 1) {
          return ToCoMss;
        }
        MarkAgain(markedSelector, q, l);
        return ToMss;
      }
      var isSat := IsSat(l);
      if !isSat {
        return Unknown;
      }
      NewMark(markedSelector, q, l);
      markedSelector := markedSelector[l.v := if l.neg then 2 else 1];
      return ToMss;
    }

    /** Takes out of `unknown0` the selectors marked already and those whose clauses the last model satisfies. */
    method ShrinkUnknown(unknown0: seq<Lit>, ghost p: seq<Lit>) returns (toMss: seq<Lit>, toCoMss: seq<Lit>, unknown: seq<Lit>)
      requires MarksOk(markedSelector, p)
      requires forall l :: l in unknown0 ==> l.v < |markedSelector| && (l.v in stored ==> !l.neg)
      modifies this`markedSelector
      ensures |markedSelector| == |old(markedSelector)| && MarksOk(markedSelector, p + toMss)
      ensures multiset(toMss) + multiset(toCoMss) + multiset(unknown) == multiset(unknown0)
      ensures forall l :: l in toMss ==> l in p || SelSat(stored, l, AsAssignment(model))
      ensures forall l :: l in toCoMss ==> l.Not() in p + toMss
      ensures forall l :: l in unknown ==> l.v < |markedSelector| && old(markedSelector)[l.v] == 0 && !SelSat(stored, l, AsAssignment(model))
      ensures forall v :: 0 <= v < |markedSelector| && old(markedSelector)[v] != 0 ==> markedSelector[v] == old(markedSelector)[v]
    {
      hide MarksOk, SelSat;
      toMss, toCoMss, unknown := [], [], [];
      assert p + [] == p;
      var i := 0;
      while i < |unknown0|
        invariant 0 <= i <= |unknown0| && |markedSelector| == |old(markedSelector)| && MarksOk(markedSelector, p + toMss)
        invariant multiset(toMss) + multiset(toCoMss) + multiset(unknown) == multiset(unknown0[..i])
        invariant forall l :: l in toMss ==> l in p || SelSat(stored, l, AsAssignment(model))
        invariant forall l :: l in toCoMss ==> l.Not() in p + toMss
        invariant forall l :: l in unknown ==> l.v < |markedSelector| && old(markedSelector)[l.v] == 0 && !SelSat(stored, l, AsAssignment(model))
        invariant forall v :: 0 <= v < |markedSelector| && old(markedSelector)[v] != 0 ==> markedSelector[v] == old(markedSelector)[v]
      {
        var l := unknown0[i];
        assert l in unknown0;
        assert unknown0[..i + 1] == unknown0[..i] + [l];
        assert p + (toMss + [l]) == (p + toMss) + [l];
        var place := Place(l, p + toMss);
        match place {
          case ToMss => toMss := toMss + [l];
          case ToCoMss => toCoMss := toCoMss + [l];
          case Unknown => unknown := unknown + [l];
        }
        i := i + 1;
      }
      assert unknown0[..i] == unknown0;
    }

    static predicate Unmarked(marked: seq<nat>, l: Lit) {
      l.v < |marked| && marked[l.v] == 0
    }

    /** Every literal of the stored clause of `sel` has a value, or its variable is marked. */
    ghost predicate ClauseDecided(sel: Lit)
      reads this, slv
    {
      sel.v in stored ==> forall q :: q in stored[sel.v] ==> q.v < |slv.assigns| && q.v < |markedSelector| && (slv.Value(q) == LUndef ==> markedSelector[q.v] != 0)
    }

    /** Assumes the negations of the literals of a rejected soft clause, all that have no value and no mark yet. */
    method AssumeBackbone(sel: Lit, p0: seq<Lit>, ghost mss: set<Lit>, ghost coMss: set<Lit>) returns (p: seq<Lit>)
      requires slv.Idle() && SelectorsOk() && |markedSelector| == |slv.assigns| && MarksOk(markedSelector, p0)
      requires Extracting(slv.theory, stored, strongAssums, p0, mss, coMss, model) && sel in coMss
      requires sel.v < |markedSelector| && markedSelector[sel.v] != 0 && (sel.v in stored ==> !sel.neg)
      modifies this`markedSelector
      ensures |markedSelector| == |slv.assigns| && MarksOk(markedSelector, p) && p0 <= p
      ensures Extracting(slv.theory, stored, strongAssums, p, mss, coMss, model)
      ensures forall l :: l in p ==> l in p0 || (sel.v in stored && l.Not() in stored[sel.v] && slv.Open(l) && Unmarked(old(markedSelector), l))
      ensures ClauseDecided(sel)
    {
      hide MarksOk, Extracting, FreshOk, Solver.Idle;
      p := p0;
      if sel.v !in stored {
        return;
      }
      var c := stored[sel.v];
      var i := 0;
      while i < |c|
        invariant 0 <= i <= |c| && |markedSelector| == |slv.assigns| && MarksOk(markedSelector, p) && p0 <= p
        invariant Extracting(slv.theory, stored, strongAssums, p, mss, coMss, model)
        invariant sel.v < |markedSelector| && markedSelector[sel.v] != 0
        invariant forall l :: l in p ==> l in p0 || (l.Not() in c && slv.Open(l) && Unmarked(old(markedSelector), l))
        invariant forall v :: 0 <= v < |markedSelector| && old(markedSelector)[v] != 0 ==> markedSelector[v] != 0
        invariant forall k :: 0 <= k < i ==> (slv.Value(c[k]) == LUndef ==> markedSelector[c[k].v] != 0)
      {
        var q := c[i];
        assert q in c;
        if slv.Value(q) == LUndef && markedSelector[q.v] == 0 {
          Backbone(slv.theory, stored, strongAssums, p, mss, coMss, model, sel, q);
          NewMark(markedSelector, p, q.Not());
          p := p + [q.Not()];
          markedSelector := markedSelector[q.v := if q.neg then 1 else 2];
        }
        i := i + 1;
      }
    }

    /** The linear search in the middle of its loop. */
    ghost predicate Searching(p: seq<Lit>, mss: seq<Lit>, coMss: seq<Lit>, unknown: seq<Lit>)
      reads this, slv
    {
      && slv.Idle() && SelectorsOk() && slv.Retained(p)
      && |markedSelector| == |slv.assigns| && MarksOk(markedSelector, p)
      && multiset(mss) + multiset(coMss) + multiset(unknown) == multiset(selectors)
      && Extracting(slv.theory, stored, strongAssums, p, Lits(mss), Lits(coMss), model)
    }

    lemma UnknownSelector(mss: seq<Lit>, coMss: seq<Lit>, unknown: seq<Lit>, l: Lit)
      requires SelectorsOk() && multiset(mss) + multiset(coMss) + multiset(unknown) == multiset(selectors)
      requires l in unknown || l in coMss || l in mss
      ensures l in selectors && l.v < |slv.assigns| && (l.v in stored ==> !l.neg)
    {
      hide FreshOk;
      assert l in multiset(mss) + multiset(coMss) + multiset(unknown);
      assert l in multiset(selectors);
    }

    /** Marks an accepted selector. */
    method MarkKept(ls: Lit, ghost p0: seq<Lit>)
      requires ls.v < |markedSelector| && MarksOk(markedSelector, p0) && (markedSelector[ls.v] == 0 || Mark(ls, markedSelector[ls.v]))
      modifies this`markedSelector
      ensures |markedSelector| == |old(markedSelector)| && MarksOk(markedSelector, p0 + [ls])
    {
      hide MarksOk;
      if markedSelector[ls.v] == 0 {
        NewMark(markedSelector, p0, ls);
      } else {
        MarkedMeans(markedSelector, p0, ls);
        MarkAgain(markedSelector, p0, ls);
        assert markedSelector[ls.v := if ls.neg then 2 else 1] == markedSelector;
      }
      markedSelector := markedSelector[ls.v := if ls.neg then 2 else 1];
    }

    static lemma CountMoved(mss0: seq<Lit>, coMss0: seq<Lit>, unknown0: seq<Lit>, ls: Lit, toMss: seq<Lit>, toCoMss: seq<Lit>, unknown: seq<Lit>)
      requires multiset(toMss) + multiset(toCoMss) + multiset(unknown) == multiset(unknown0)
      ensures multiset(mss0 + [ls] + toMss) + multiset(coMss0 + toCoMss) + multiset(unknown) == multiset(mss0) + multiset(coMss0) + multiset(unknown0 + [ls])
      ensures |unknown| <= |unknown0|
    {
      assert multiset(unknown0 + [ls]) == multiset(unknown0) + multiset{ls};
      assert |multiset(toMss) + multiset(toCoMss) + multiset(unknown)| == |multiset(unknown0)|;
    }

    /** The solver accepts `ls`: it is kept, together with what the model satisfies besides. */
    method Accept(ls: Lit, p0: seq<Lit>, mss0: seq<Lit>, coMss0: seq<Lit>, unknown0: seq<Lit>, ghost model0: seq<bool>)
      returns (p: seq<Lit>, mss: seq<Lit>, coMss: seq<Lit>, unknown: seq<Lit>)
      requires slv.Idle() && SelectorsOk() && slv.Retained(p0) && |markedSelector| == |slv.assigns| && MarksOk(markedSelector, p0)
      requires multiset(mss0) + multiset(coMss0) + multiset(unknown0 + [ls]) == multiset(selectors)
      requires Extracting(slv.theory, stored, strongAssums, p0, Lits(mss0), Lits(coMss0), model0)
      requires IsModel(AsAssignment(model), slv.theory, p0 + (strongAssums + [ls]))
      requires ls.v < |markedSelector| && (markedSelector[ls.v] == 0 || Mark(ls, markedSelector[ls.v]))
      modifies this`markedSelector
      ensures Searching(p, mss, coMss, unknown) && |unknown| <= |unknown0| && p0 + [ls] <= p
    {
      hide MarksOk, Extracting, FreshOk, Solver.Idle, Solver.Retained, IsModel, SelSat, Implied, Excluded;
      UnknownSelector(mss0, coMss0, unknown0 + [ls], ls);
      MarkKept(ls, p0);
      mss := mss0 + [ls];
      p := p0 + [ls];
      forall l | l in unknown0 ensures l.v < |markedSelector| && (l.v in stored ==> !l.neg) {
        assert l in unknown0 + [ls];
        UnknownSelector(mss0, coMss0, unknown0 + [ls], l);
      }
      var toMss, toCoMss;
      toMss, toCoMss, unknown := ShrinkUnknown(unknown0, p);
      forall l | l in toMss ensures l in unknown0 && (l.v in stored ==> !l.neg) && (l in p0 + [ls] || SelSat(stored, l, AsAssignment(model))) {
        assert l in multiset(toMss) + multiset(toCoMss) + multiset(unknown);
        assert l in multiset(unknown0);
      }
      AcceptMoved(slv.theory, stored, strongAssums, p0, Lits(mss0), Lits(coMss0), model0, ls, model, toMss);
      assert Lits(mss0) + {ls} + Lits(toMss) == Lits(mss + toMss);
      slv.StillRetained(p0, p + toMss);
      mss := mss + toMss;
      p := p + toMss;
      RejectAll(slv.theory, stored, strongAssums, p, Lits(mss), Lits(coMss0), model, toCoMss);
      assert Lits(coMss0) + Lits(toCoMss) == Lits(coMss0 + toCoMss);
      coMss := coMss0 + toCoMss;
      CountMoved(mss0, coMss0, unknown0, ls, toMss, toCoMss, unknown);
    }

    /** The solver rejects `ls`. */
    method RejectLit(ls: Lit, p0: seq<Lit>, ghost mss: seq<Lit>, coMss0: seq<Lit>, ghost unknown: seq<Lit>) returns (p: seq<Lit>, coMss: seq<Lit>)
      requires Searching(p0, mss, coMss0, unknown + [ls])
      requires ls.v < |markedSelector| && (markedSelector[ls.v] == 0 || Mark(ls, markedSelector[ls.v]))
      requires !Satisfiable(slv.theory, p0 + (strongAssums + [ls]))
      modifies this`markedSelector
      ensures Searching(p, mss, coMss, unknown) && p0 + [ls.Not()] <= p && ClauseDecided(ls)
    {
      hide MarksOk, Extracting, FreshOk, Solver.Idle, Solver.Retained, Satisfiable, ClauseDecided;
      UnknownSelector(mss, coMss0, unknown + [ls], ls);
      assert markedSelector[ls.v] == 0 by { NotForced(slv.theory, stored, strongAssums, p0, Lits(mss), Lits(coMss0), model, markedSelector, ls); }
      Reject(slv.theory, stored, strongAssums, p0, Lits(mss), Lits(coMss0), model, ls);
      NewMark(markedSelector, p0, ls.Not());
      coMss := coMss0 + [ls];
      assert Lits(coMss0) + {ls} == Lits(coMss);
      markedSelector := markedSelector[ls.v := if ls.neg then 1 else 2];
      p := AssumeBackbone(ls, p0 + [ls.Not()], Lits(mss), Lits(coMss));
      slv.StillRetained(p0, p);
      assert multiset(unknown + [ls]) == multiset(unknown) + multiset{ls};
    }

    /** The mark says that `ls` is false. */
    ghost predicate MarkedFalse(ls: Lit)
      reads this
    {
      ls.v < |markedSelector| && markedSelector[ls.v] != 0 && markedSelector[ls.v] != (if ls.neg then 2 else 1)
    }

    /** One round of the linear search: decides about `ls`. Unless a mark rejects it, it is assumed, or its negation and
        those of the literals of its clause are. */
    method Round(ls: Lit, p0: seq<Lit>, mss0: seq<Lit>, coMss0: seq<Lit>, unknown0: seq<Lit>)
      returns (p: seq<Lit>, mss: seq<Lit>, coMss: seq<Lit>, unknown: seq<Lit>)
      requires Searching(p0, mss0, coMss0, unknown0 + [ls]) && |model| == |slv.assigns|
      modifies this`markedSelector, this`model, slv
      ensures Searching(p, mss, coMss, unknown) && |unknown| <= |unknown0|
      ensures slv.theory == old(slv.theory) && |model| == |slv.assigns| == |old(slv.assigns)|
      ensures if old(MarkedFalse(ls)) then p == p0 else p0 + [ls] <= p || (p0 + [ls.Not()] <= p && ClauseDecided(ls))
    {
      hide MarksOk, Extracting, FreshOk, Solver.Idle, Solver.Retained, Satisfiable, Models, ClauseDecided;
      UnknownSelector(mss0, coMss0, unknown0 + [ls], ls);
      p, mss, coMss, unknown := p0, mss0, coMss0, unknown0;
      if markedSelector[ls.v] != 0 && markedSelector[ls.v] != (if ls.neg then 2 else 1) {
        MarkedMeans(markedSelector, p, ls);
        RejectMarked(slv.theory, stored, strongAssums, p, Lits(mss), Lits(coMss), model, ls);
        coMss := coMss0 + [ls];
        assert Lits(coMss0) + {ls} == Lits(coMss);
        assert multiset(unknown0 + [ls]) == multiset(unknown0) + multiset{ls};
      } else {
        MarksRange(markedSelector, p);
        var sat := slv.SolveAfter(strongAssums + [ls], p);
        if sat {
          ghost var model0 := model;
          model := slv.model;
          ModelsMeans(model, slv.theory, p + (strongAssums + [ls]));
          p, mss, coMss, unknown := Accept(ls, p, mss, coMss, unknown, model0);
        } else {
          p, coMss := RejectLit(ls, p, mss, coMss, unknown);
        }
      }
    }

    /** Splits the selectors into a maximal satisfiable part and the rest. */
    method Search(unknown0: seq<Lit>) returns (mss: seq<Lit>, coMss: seq<Lit>)
      requires Valid() && unknown0 == selectors && Satisfiable(slv.theory, strongAssums)
      requires |markedSelector| == |slv.assigns| && forall v :: 0 <= v < |markedSelector| ==> markedSelector[v] == 0
      modifies this`markedSelector, this`model, slv
      ensures Valid() && slv.theory == old(slv.theory) && |slv.assigns| == |old(slv.assigns)|
      ensures |markedSelector| == |slv.assigns|
      ensures multiset(mss) + multiset(coMss) == multiset(selectors)
      ensures IsMss(slv.theory, strongAssums, Lits(selectors), Lits(mss))
      ensures forall l :: l in selectors ==> (l in mss <==> l !in coMss) && (l in mss <==> SelSat(stored, l, AsAssignment(model)))
      ensures Models(model, slv.theory, strongAssums) && |model| == |slv.assigns|
    {
      hide MarksOk, Extracting, FreshOk, Solver.Idle, Solver.Retained, Satisfiable, Models;
      var unknown := unknown0;
      var p: seq<Lit> := [];
      mss, coMss := [], [];
      var sat := slv.Solve(strongAssums);
      model := slv.model;
      ModelsMeans(model, slv.theory, strongAssums);
      slv.NothingRetained(p);
      NoMarks(markedSelector);
      StartExtracting(slv.theory, stored, strongAssums, model);
      assert Lits([]) == {};
      while |unknown| > 0
        invariant Searching(p, mss, coMss, unknown) && |model| == |slv.assigns| == |old(slv.assigns)|
        invariant slv.theory == old(slv.theory)
        decreases |unknown|
      {
        var ls := unknown[|unknown| - 1];
        assert unknown == unknown[..|unknown| - 1] + [ls];
        unknown := unknown[..|unknown| - 1];
        p, mss, coMss, unknown := Round(ls, p, mss, coMss, unknown);
      }
      Finish(p, mss, coMss);
    }

    /** Extracts one coMSS from scratch. */
    method Extract() returns (coMss: seq<Lit>)
      requires Valid() && Satisfiable(slv.theory, strongAssums) && |markedSelector| == |slv.assigns|
      modifies this`markedSelector, this`model, slv
      ensures Valid() && slv.theory == old(slv.theory) && |slv.assigns| == |old(slv.assigns)| == |markedSelector|
      ensures Lits(coMss) <= Lits(selectors) && IsMss(slv.theory, strongAssums, Lits(selectors), Lits(selectors) - Lits(coMss))
      ensures forall l :: l in selectors ==> (l in coMss <==> !SelSat(stored, l, AsAssignment(model)))
      ensures Models(model, slv.theory, strongAssums) && |model| == |slv.assigns|
    {
      hide FreshOk, Solver.Idle, Solver.Retained, Satisfiable, Models, IsMss, SelSat;
      markedSelector := seq(|markedSelector|, i => 0);
      var mss;
      mss, coMss := Search(selectors);
      forall l | l in coMss ensures l in selectors {
        assert l in multiset(mss) + multiset(coMss);
        assert l in multiset(selectors);
      }
      forall l | l in mss ensures l in selectors {
        assert l in multiset(mss) + multiset(coMss);
        assert l in multiset(selectors);
      }
      assert Lits(mss) == Lits(selectors) - Lits(coMss);
    }

    lemma Finish(p: seq<Lit>, mss: seq<Lit>, coMss: seq<Lit>)
      requires Searching(p, mss, coMss, [])
      ensures multiset(mss) + multiset(coMss) == multiset(selectors)
      ensures IsMss(slv.theory, strongAssums, Lits(selectors), Lits(mss))
      ensures forall l :: l in selectors ==> (l in mss <==> l !in coMss) && (l in mss <==> SelSat(stored, l, AsAssignment(model)))
      ensures Models(model, slv.theory, strongAssums)
    {
      hide Models, MarksOk, FreshOk, Solver.Idle, Solver.Retained, Satisfiable, IsMss, SelSat, IsModel, Implied, Excluded, Extracting;
      forall l | l in coMss ensures l.v in stored ==> !l.neg { UnknownSelector(mss, coMss, [], l); }
      forall l ensures l in selectors <==> l in mss || l in coMss {
        assert l in multiset(selectors) <==> l in selectors;
      }
      assert Lits(mss) + Lits(coMss) == Lits(selectors);
      Extracted(slv.theory, stored, strongAssums, p, Lits(mss), Lits(coMss), model);
      forall l | l in selectors ensures (l in mss <==> l !in coMss) && (l in mss <==> SelSat(stored, l, AsAssignment(model))) {
        assert l in Lits(mss) + Lits(coMss);
        assert l in coMss <==> l in Lits(coMss);
      }
    }

    // ----- building the stored problem -----

    /** The soft clauses added so far are represented; `mapIdxClause` inverts `orgID2in`. */
    ghost predicate Built(hard: Theory, softs: seq<Clause>)
      reads this, slv
    {
      && slv.Idle() && slv.DecisionLevel() == 0 && strongAssums == [] && SelectorsOk()
      && Represents(slv.theory, stored, selectors, orgID2in, hard, softs)
      && IdsOk(selectors, orgID2in, mapIdxClause)
      && VarsBelow(slv.theory, stored, softs, |slv.assigns|)
    }

    /** Records that literal `l` selects the next soft clause. */
    method UseSelector(l: Lit, ghost hard: Theory, ghost softs: seq<Clause>, ghost soft: Clause)
      requires Built(hard, softs) && l.v < |slv.assigns| && (l.v in stored ==> !l.neg)
      requires OverOriginal(Lits(soft), stored) && SelectorMeans(slv.theory, stored, soft, Some(l))
      requires forall q :: q in soft ==> q.v < |slv.assigns|
      modifies this`selectors, this`orgID2in, this`mapIdxClause
      ensures Built(hard, softs + [soft])
    {
      hide Solver.Idle, Represents, FreshOk, SelectorMeans, IdsOk, VarsBelow, Lits, OverOriginal;
      AddSelected(slv.theory, stored, selectors, orgID2in, hard, softs, soft, Some(l));
      InRangeMore(slv.theory, stored, softs, soft, |slv.assigns|);
      UsedMore(selectors, orgID2in, mapIdxClause, l);
      KeysAreSelectors(selectors, orgID2in, mapIdxClause, l);
      ghost var map0 := mapIdxClause;
      if l !in mapIdxClause {
        selectors := selectors + [l];
        mapIdxClause := mapIdxClause[l := []];
      }
      assert mapIdxClause[l] == IdsOf(map0, l);
      assert mapIdxClause[l := mapIdxClause[l] + [|orgID2in|]] == map0[l := IdsOf(map0, l) + [|orgID2in|]];
      mapIdxClause := mapIdxClause[l := mapIdxClause[l] + [|orgID2in|]];
      orgID2in := orgID2in + [Some(l)];
    }

    /** Adds a soft clause: a literal left alone selects it, and several get a new variable. */
    method AddSoft(soft: Clause, ghost hard: Theory, ghost softs: seq<Clause>)
      requires Built(hard, softs) && |soft| > 0
      requires forall l :: l in soft ==> l.v < |slv.assigns| && l.v !in stored
      modifies this`selectors, this`orgID2in, this`mapIdxClause, this`stored, slv
      ensures |slv.assigns| >= |old(slv.assigns)|
      ensures forall v :: v in stored ==> v in old(stored) || v >= |old(slv.assigns)|
      ensures Built(hard, softs + [soft])
    {
      hide Solver.Idle, Represents, FreshOk, SelectorMeans, Entails, IdsOk, VarsBelow;
      assert soft[0] in soft;
      if |soft| == 1 {
        UnitMeans(slv.theory, stored, soft);
        UseSelector(soft[0], hard, softs, soft);
        return;
      }
      var done, out := Normalised(soft);
      if done {
        SatisfiedMeans(slv.theory, stored, soft);
        AddSelected(slv.theory, stored, selectors, orgID2in, hard, softs, soft, None);
        InRangeMore(slv.theory, stored, softs, soft, |slv.assigns|);
        IdsNone(selectors, orgID2in, mapIdxClause);
        orgID2in := orgID2in + [None];
      } else if |out| == 0 {
        FalseMeans(slv.theory, stored, soft);
        UseSelector(soft[0], hard, softs, soft);
      } else if |out| == 1 {
        assert out[0] in Lits(out);
        LeftMeans(slv.theory, stored, soft, out[0]);
        UseSelector(out[0], hard, softs, soft);
      } else {
        AddFreshSoft(soft, hard, softs);
      }
    }

    /** What is left of a soft clause after dropping literals false at level 0. */
    method Normalised(soft: Clause) returns (done: bool, out: Clause)
      requires slv.Idle() && slv.DecisionLevel() == 0 && forall l :: l in soft ==> l.v < |slv.assigns|
      ensures done ==> Entails(slv.theory, Lits(soft))
      ensures !done ==> Lits(out) <= Lits(soft) && forall l :: l in soft ==> l in out || Entails(slv.theory, {l.Not()})
    {
      hide Solver.Idle, Entails, Clauses.LitsSorted;
      Clauses.SortedSame(soft);
      var ps := Clauses.SortLits(soft);
      forall l ensures l in ps <==> l in soft { assert l in Lits(ps) <==> l in Lits(soft); }
      done, out := slv.Normalise(ps);
      if done {
        ghost var l :| l in ps && (IsTrue(slv.Snap(), l) || l.Not() in ps);
        slv.TopValue(l);
        TrueOrTautology(slv.theory, Lits(soft), l);
      } else {
        forall l | l in soft ensures l in out || Entails(slv.theory, {l.Not()}) {
          if l !in out { slv.TopValue(l); }
        }
      }
    }

    method AddFreshSoft(soft: Clause, ghost hard: Theory, ghost softs: seq<Clause>)
      requires Built(hard, softs) && |soft| > 0
      requires forall l :: l in soft ==> l.v < |slv.assigns| && l.v !in stored
      modifies this`selectors, this`orgID2in, this`mapIdxClause, this`stored, slv
      ensures |slv.assigns| >= |old(slv.assigns)|
      ensures forall v :: v in stored ==> v in old(stored) || v >= |old(slv.assigns)|
      ensures Built(hard, softs + [soft])
    {
      hide Solver.Idle, Represents, FreshOk, SelectorMeans, IdsOk, Unused, VarsBelow;
      ghost var theory0 := slv.theory;
      UnusedVar(theory0, stored, selectors, softs, |slv.assigns|);
      var v := slv.NewVar();
      AddFresh(theory0, stored, selectors, orgID2in, hard, softs, soft, v);
      var ls := Lit(v, true);
      var c := soft + [ls];
      forall l | l in c ensures l.v < |slv.assigns| { }
      var added := slv.AddClause(c);
      RepresentsFresh(slv.theory, stored[v := c], selectors, orgID2in, hard, softs);
      InRangeFresh(theory0, stored, softs, c, v);
      stored := stored[v := c];
      FreshMeans(slv.theory, stored, soft, v);
      UseSelector(ls.Not(), hard, softs, soft);
    }

    /** The soft clauses of the given selectors. */
    method In2Ex(cs: seq<Lit>) returns (out: seq<nat>)
      requires IdsOk(selectors, orgID2in, mapIdxClause) && Lits(cs) <= Lits(selectors)
      ensures forall i: nat :: i in out <==> i < |orgID2in| && orgID2in[i].Some? && orgID2in[i].value in cs
    {
      out := [];
      var k := 0;
      while k < |cs|
        invariant 0 <= k <= |cs|
        invariant forall i: nat :: i in out <==> i < |orgID2in| && orgID2in[i].Some? && orgID2in[i].value in cs[..k]
      {
        assert cs[k] in Lits(cs);
        assert cs[..k + 1] == cs[..k] + [cs[k]];
        assert AllSelectedBy(orgID2in, mapIdxClause[cs[k]], cs[k]);
        out := out + mapIdxClause[cs[k]];
        k := k + 1;
      }
      assert cs[..k] == cs;
    }
  }
}
