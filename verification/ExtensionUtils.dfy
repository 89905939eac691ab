/** The grounded extension by a worklist over the attacks, and the test for a full range. */
module ExtensionWorklist {
  import opened Cnf
  import opened Argumentation
  import opened AttackStore

  /** Argument number `v` is called `nameOf[v]`; `varOf` is the inverse. */
  ghost predicate Numbered(nameOf: seq<Arg>, varOf: map<Arg, nat>) {
    && (forall v :: 0 <= v < |nameOf| ==> nameOf[v] in varOf && varOf[nameOf[v]] == v)
    && (forall a :: a in varOf ==> varOf[a] < |nameOf| && nameOf[varOf[a]] == a)
  }

  ghost predicate AttacksNumbered(varOf: map<Arg, nat>, attacks: map<Arg, seq<Arg>>) {
    forall p :: p in Pairs(attacks) ==> p.0 in varOf && p.1 in varOf
  }

  ghost function Static(nameOf: seq<Arg>, attacks: map<Arg, seq<Arg>>): Framework {
    Framework((set a | a in nameOf), Pairs(attacks))
  }

  /** The arguments flagged by `flags`. */
  ghost function Flagged(nameOf: seq<Arg>, flags: seq<bool>): set<Arg> {
    set v | 0 <= v < |nameOf| && v < |flags| && flags[v] :: nameOf[v]
  }

  class ExtensionUtils {
    const nameOf: seq<Arg>
    const varOf: map<Arg, nat>
    const attacks: map<Arg, seq<Arg>>

    constructor (nameOf: seq<Arg>, varOf: map<Arg, nat>, attacks: map<Arg, seq<Arg>>)
      requires Numbered(nameOf, varOf) && AttacksNumbered(varOf, attacks)
      ensures this.nameOf == nameOf && this.varOf == varOf && this.attacks == attacks && Valid()
    {
      this.nameOf, this.varOf, this.attacks := nameOf, varOf, attacks;
    }

    ghost predicate Valid() {
      Numbered(nameOf, varOf) && AttacksNumbered(varOf, attacks)
    }

    ghost function F(): Framework {
      Static(nameOf, attacks)
    }

    /** `b` attacks argument number `v` and is not defeated. */
    ghost predicate Live(defeated: seq<bool>, v: nat, b: Arg)
      requires v < |nameOf|
    {
      b in To(attacks, nameOf[v]) && b in varOf && varOf[b] < |defeated| && !defeated[varOf[b]]
    }

    /** Number `v` has an attacker left, and none of those is in. */
    ghost predicate Stuck(inExt: seq<bool>, defeated: seq<bool>, v: nat)
      requires v < |nameOf|
    {
      && (exists b :: Live(defeated, v, b))
      && (forall b :: Live(defeated, v, b) && varOf[b] < |inExt| ==> !inExt[varOf[b]])
    }

    /** What is in belongs to the grounded extension, what is defeated is attacked by it, and the
        candidates are the rest. */
    ghost predicate Progress(inExt: seq<bool>, defeated: seq<bool>, candidates: seq<nat>) {
      && |inExt| == |defeated| == |nameOf|
      && Flagged(nameOf, inExt) <= Grounded(F())
      && (forall v :: 0 <= v < |nameOf| && defeated[v] ==> Attacked(F(), Flagged(nameOf, inExt), nameOf[v]))
      && EachOnce(candidates, |nameOf|) && (forall v :: v in candidates ==> v < |nameOf| && !inExt[v])
      && (forall v :: 0 <= v < |nameOf| ==> v in candidates || inExt[v] || defeated[v])
    }

    lemma AttackerNumbered(v: nat, b: Arg)
      requires Valid() && v < |nameOf| && b in To(attacks, nameOf[v])
      ensures b in varOf && varOf[b] < |nameOf| && nameOf[varOf[b]] == b && (b, nameOf[v]) in F().attacks
    {
      PairsTo(attacks, b, nameOf[v]);
    }

    /** What becomes of a candidate: in, defeated, or neither for now. */
    method Examine(v: nat, inExt: seq<bool>, defeated: seq<bool>) returns (argAttacked: bool, argDefeated: bool)
      requires Valid() && v < |nameOf| && |inExt| == |defeated| == |nameOf|
      ensures argDefeated ==> exists b :: Live(defeated, v, b) && inExt[varOf[b]]
      ensures !argDefeated && argAttacked ==> Stuck(inExt, defeated, v)
      ensures !argDefeated && !argAttacked ==> forall b :: !Live(defeated, v, b)
    {
      var attacksTo := To(attacks, nameOf[v]);
      argAttacked, argDefeated := false, false;
      var j := 0;
      while j < |attacksTo|
        invariant 0 <= j <= |attacksTo| && !argDefeated
        invariant argAttacked <==> exists k :: 0 <= k < j && Live(defeated, v, attacksTo[k])
        invariant forall k :: 0 <= k < j && Live(defeated, v, attacksTo[k]) ==> !inExt[varOf[attacksTo[k]]]
      {
        assert attacksTo[j] in attacksTo;
        AttackerNumbered(v, attacksTo[j]);
        var attacker := varOf[attacksTo[j]];
        if !defeated[attacker] {
          assert Live(defeated, v, attacksTo[j]);
          argAttacked := true;
          if inExt[attacker] {
            return true, true;
          }
        }
        j := j + 1;
      }
      forall b | Live(defeated, v, b) ensures argAttacked && !inExt[varOf[b]] {
        var k :| 0 <= k < |attacksTo| && attacksTo[k] == b;
        assert Live(defeated, v, attacksTo[k]);
      }
    }

    lemma FlagOne(flags: seq<bool>, v: nat)
      requires Valid() && |flags| == |nameOf| && v < |nameOf|
      ensures Flagged(nameOf, flags[v := true]) == Flagged(nameOf, flags) + {nameOf[v]}
    {
      var flags' := flags[v := true];
      assert flags'[v];
      forall a ensures a in Flagged(nameOf, flags') <==> a in Flagged(nameOf, flags) + {nameOf[v]} {
        if a in Flagged(nameOf, flags) {
          var u :| 0 <= u < |nameOf| && flags[u] && nameOf[u] == a;
          assert flags'[u];
        }
      }
    }

    /** Defeating an argument attacked from inside keeps the invariant. */
    lemma Defeat(inExt: seq<bool>, defeated: seq<bool>, candidates: seq<nat>, candidates': seq<nat>, v: nat)
      requires Valid() && Progress(inExt, defeated, candidates) && v in candidates
      requires exists b :: Live(defeated, v, b) && inExt[varOf[b]]
      requires forall u :: u in candidates ==> u in candidates' || u == v
      requires (forall u :: u in candidates' ==> u in candidates) && EachOnce(candidates', |nameOf|)
      ensures Progress(inExt, defeated[v := true], candidates')
    {
      var b :| Live(defeated, v, b) && inExt[varOf[b]];
      AttackerNumbered(v, b);
      assert b in Flagged(nameOf, inExt);
    }

    /** An argument all of whose attackers are defeated is in the grounded extension. */
    lemma Accept(inExt: seq<bool>, defeated: seq<bool>, candidates: seq<nat>, candidates': seq<nat>, v: nat)
      requires Valid() && Progress(inExt, defeated, candidates) && v in candidates
      requires forall b :: !Live(defeated, v, b)
      requires forall u :: u in candidates ==> u in candidates' || u == v
      requires (forall u :: u in candidates' ==> u in candidates) && EachOnce(candidates', |nameOf|) && v !in candidates'
      ensures Progress(inExt[v := true], defeated, candidates') && !inExt[v]
    {
      hide Grounded;
      var s, s' := Flagged(nameOf, inExt), Flagged(nameOf, inExt[v := true]);
      FlagOne(inExt, v);
      GroundedLeast(F());
      assert nameOf[v] in Characteristic(F(), Grounded(F())) by {
        forall b | (b, nameOf[v]) in F().attacks ensures Attacked(F(), Grounded(F()), b) {
          PairsTo(attacks, b, nameOf[v]);
          AttackerNumbered(v, b);
          assert !Live(defeated, v, b);
          assert Attacked(F(), s, nameOf[varOf[b]]);
        }
      }
      forall u | 0 <= u < |nameOf| && defeated[u] ensures Attacked(F(), s', nameOf[u]) {
        assert Attacked(F(), s, nameOf[u]);
      }
    }

    /** When every candidate is stuck, the arguments that are in are all of the grounded extension. */
    lemma AllStuck(inExt: seq<bool>, defeated: seq<bool>, candidates: seq<nat>)
      requires Valid() && Progress(inExt, defeated, candidates) && forall v :: v in candidates ==> v < |nameOf| && Stuck(inExt, defeated, v)
      ensures Flagged(nameOf, inExt) == Grounded(F())
    {
      hide Grounded;
      var s := Flagged(nameOf, inExt);
      GroundedLeast(F());
      assert ConflictFree(F(), s) by {
        forall a | a in s ensures !Attacked(F(), s, a) { assert Attacked(F(), s, a) ==> Attacked(F(), Grounded(F()), a); }
      }
      forall a | a in Characteristic(F(), s) ensures a in s {
        var v :| 0 <= v < |nameOf| && nameOf[v] == a;
        DefendedIn(inExt, defeated, candidates, v);
      }
    }

    lemma DefendedIn(inExt: seq<bool>, defeated: seq<bool>, candidates: seq<nat>, v: nat)
      requires Valid() && Progress(inExt, defeated, candidates) && forall u :: u in candidates ==> u < |nameOf| && Stuck(inExt, defeated, u)
      requires ConflictFree(F(), Flagged(nameOf, inExt)) && v < |nameOf| && Defends(F(), Flagged(nameOf, inExt), nameOf[v])
      ensures inExt[v]
    {
      hide Grounded;
      var s := Flagged(nameOf, inExt);
      DefendedUnattacked(F(), s, nameOf[v]);
      assert !defeated[v];
      if v in candidates {
        var b :| Live(defeated, v, b);
        AttackerNumbered(v, b);
        AttackedCandidate(inExt, defeated, candidates, varOf[b]);
      }
    }

    /** An argument attacked from inside is defeated, once all candidates are stuck. */
    lemma AttackedCandidate(inExt: seq<bool>, defeated: seq<bool>, candidates: seq<nat>, u: nat)
      requires Valid() && Progress(inExt, defeated, candidates) && forall v :: v in candidates ==> v < |nameOf| && Stuck(inExt, defeated, v)
      requires ConflictFree(F(), Flagged(nameOf, inExt)) && u < |nameOf| && Attacked(F(), Flagged(nameOf, inExt), nameOf[u])
      ensures defeated[u]
    {
      hide Grounded;
      var s := Flagged(nameOf, inExt);
      FlagOf(inExt, u);
      var g :| g in s && (g, nameOf[u]) in F().attacks;
      PairsTo(attacks, g, nameOf[u]);
      AttackerNumbered(u, g);
      assert inExt[varOf[g]];
      assert !Attacked(F(), s, g);
      assert !defeated[varOf[g]];
      assert Live(defeated, u, g);
    }

    /** Takes a candidate out by moving the last one into its place. */
    method TakeOut(candidates: seq<nat>, i: nat, ghost n: nat) returns (rest: seq<nat>)
      requires i < |candidates| && EachOnce(candidates, n)
      ensures EachOnce(rest, n) && candidates[i] !in rest
      ensures |rest| == |candidates| - 1 && rest[..i] == candidates[..i]
      ensures forall u :: u in candidates ==> u in rest || u == candidates[i]
      ensures forall u :: u in rest ==> u in candidates
    {
      var last := |candidates| - 1;
      rest := candidates[i := candidates[last]][..last];
      forall j, k | 0 <= j < k <= last ensures candidates[j] != candidates[k] { }
      forall j, k | 0 <= j < k < last ensures rest[j] != rest[k] {
        var a, b := if j == i then last else j, if k == i then last else k;
        assert rest[j] == candidates[a] && rest[k] == candidates[b] && if a < b then candidates[a] != candidates[b] else candidates[b] != candidates[a];
      }
      forall k | 0 <= k < last ensures rest[k] != candidates[i] {
        var b := if k == i then last else k;
        assert rest[k] == candidates[b] && if i < b then candidates[i] != candidates[b] else candidates[b] != candidates[i];
      }
      forall u | u in rest ensures u in candidates && u < n {
        var k :| 0 <= k < last && rest[k] == u;
        assert rest[k] == candidates[if k == i then last else k];
      }
      forall u | u in candidates ensures u in rest || u == candidates[i] {
        var k :| 0 <= k <= last && candidates[k] == u;
        if k != i { assert if k < last then rest[k] == u else i < last && rest[i] == u; }
      }
    }

    /** The least fixed point of the characteristic function. */
    method GroundedExtension() returns (grExt: seq<nat>)
      requires Valid()
      ensures forall v :: 0 <= v < |nameOf| ==> (v in grExt <==> nameOf[v] in Grounded(F()))
      ensures EachOnce(grExt, |nameOf|)
    {
      hide Grounded, Progress, Stuck;
      grExt := [];
      var inExt: seq<bool> := seq(|nameOf|, i => false);
      var defeated: seq<bool> := seq(|nameOf|, i => false);
      var candidates: seq<nat> := seq(|nameOf|, i requires 0 <= i < |nameOf| => i);
      Start(inExt, defeated, candidates);
      var didSomething := true;
      while didSomething
        invariant |inExt| == |nameOf| && Progress(inExt, defeated, candidates) && EachOnce(grExt, |nameOf|) && forall v :: 0 <= v < |nameOf| ==> (v in grExt <==> inExt[v])
        invariant !didSomething ==> forall v :: v in candidates ==> v < |nameOf| && Stuck(inExt, defeated, v)
        decreases |candidates|, didSomething
      {
        didSomething := false;
        var i := 0;
        ghost var n := |candidates|;
        while i < |candidates|
          invariant 0 <= i <= |candidates| <= n && (didSomething ==> |candidates| < n)
          invariant |inExt| == |nameOf| && Progress(inExt, defeated, candidates) && EachOnce(grExt, |nameOf|) && forall v :: 0 <= v < |nameOf| ==> (v in grExt <==> inExt[v])
          invariant !didSomething ==> forall k :: 0 <= k < i ==> candidates[k] < |nameOf| && Stuck(inExt, defeated, candidates[k])
          decreases |candidates| - i
        {
          var v := candidates[i];
          CandidateInRange(inExt, defeated, candidates, v);
          var argAttacked, argDefeated := Examine(v, inExt, defeated);
          if argDefeated {
            var rest := TakeOut(candidates, i, |nameOf|);
            Defeat(inExt, defeated, candidates, rest, v);
            defeated, candidates, didSomething := defeated[v := true], rest, true;
          } else if !argAttacked {
            var rest := TakeOut(candidates, i, |nameOf|);
            Accept(inExt, defeated, candidates, rest, v);
            grExt := grExt + [v];
            inExt, candidates, didSomething := inExt[v := true], rest, true;
          } else {
            i := i + 1;
          }
        }
      }
      AllStuck(inExt, defeated, candidates);
      forall v | 0 <= v < |nameOf| ensures v in grExt <==> nameOf[v] in Grounded(F()) {
        FlagOf(inExt, v);
      }
    }

    lemma Start(inExt: seq<bool>, defeated: seq<bool>, candidates: seq<nat>)
      requires Valid() && |inExt| == |defeated| == |candidates| == |nameOf|
      requires forall v :: 0 <= v < |nameOf| ==> !inExt[v] && !defeated[v] && candidates[v] == v
      ensures Progress(inExt, defeated, candidates)
    {
      assert Flagged(nameOf, inExt) == {};
    }

    lemma CandidateInRange(inExt: seq<bool>, defeated: seq<bool>, candidates: seq<nat>, v: nat)
      requires Progress(inExt, defeated, candidates) && v in candidates
      ensures v < |nameOf| == |inExt| == |defeated| && EachOnce(candidates, |nameOf|)
    {
    }

    lemma FlagOf(flags: seq<bool>, v: nat)
      requires Valid() && |flags| == |nameOf| && v < |nameOf|
      ensures nameOf[v] in Flagged(nameOf, flags) <==> flags[v]
    {
    }

    /** Whether every argument is in the set or attacked by it. */
    method IsMaxRange(extension: seq<nat>) returns (r: bool)
      requires Valid() && forall v :: v in extension ==> v < |nameOf|
      ensures r <==> Range(F(), set v | v in extension :: nameOf[v]) == F().args
    {
      ghost var s := set v | v in extension :: nameOf[v];
      var inExt: seq<bool> := seq(|nameOf|, i => false);
      var i := 0;
      while i < |extension|
        invariant 0 <= i <= |extension| && |inExt| == |nameOf|
        invariant forall v :: 0 <= v < |nameOf| ==> (inExt[v] <==> v in extension[..i])
      {
        assert extension[i] in extension;
        inExt := inExt[extension[i] := true];
        i := i + 1;
      }
      assert extension[..i] == extension;
      forall v | 0 <= v < |nameOf| ensures inExt[v] <==> nameOf[v] in s {
        if nameOf[v] in s { var u :| u in extension && nameOf[u] == nameOf[v]; }
      }
      i := 0;
      while i < |nameOf|
        invariant 0 <= i <= |nameOf| && forall v :: 0 <= v < i ==> nameOf[v] in s || Attacked(F(), s, nameOf[v])
      {
        if !inExt[i] {
          var attacked := AttackedFrom(i, inExt, s);
          if !attacked {
            assert nameOf[i] in F().args && nameOf[i] !in Range(F(), s);
            return false;
          }
        }
        i := i + 1;
      }
      forall a | a in F().args ensures a in Range(F(), s) { var v :| 0 <= v < |nameOf| && nameOf[v] == a; }
      r := true;
    }

    method AttackedFrom(v: nat, inExt: seq<bool>, ghost s: set<Arg>) returns (attacked: bool)
      requires Valid() && v < |nameOf| == |inExt| && forall u :: 0 <= u < |nameOf| ==> (inExt[u] <==> nameOf[u] in s)
      ensures attacked <==> Attacked(F(), s, nameOf[v])
    {
      var attackers := To(attacks, nameOf[v]);
      var j := 0;
      while j < |attackers|
        invariant 0 <= j <= |attackers| && forall k :: 0 <= k < j ==> attackers[k] !in s
      {
        assert attackers[j] in attackers;
        AttackerNumbered(v, attackers[j]);
        if inExt[varOf[attackers[j]]] {
          return true;
        }
        j := j + 1;
      }
      forall a | a in s ensures (a, nameOf[v]) !in F().attacks {
        PairsTo(attacks, a, nameOf[v]);
      }
      attacked := false;
    }
  }
}
