/** The semantics solvers: merge equivalent arguments, then compute the extensions after a step. */
module SemanticsSolvers {
  import opened Cnf
  import opened Argumentation
  import opened AttackStore
  import opened EncodingBuilder
  import opened EncodingModels
  import opened Encoders
  import opened GroundedSemantics
  import opened ExtensionWorklist
  import opened PreferredSemantics
  import opened IdealSemantics
  import opened ExtensionEnumeration
  import opened RangeSemantics
  import opened RangeBasedSolver
  import opened ProblemReducer

  /** A framework over numbered arguments with a list of changes, and the step asked for. */
  ghost predicate Problem(nameOf: seq<Arg>, varOf: map<Arg, nat>, attacks: Attacks, step: int)
    reads attacks
  {
    Numbered(nameOf, varOf) && attacks.Valid() && DeclaredIn(nameOf, attacks.initial, attacks.dynAttacks) && -1 <= step < |attacks.dynAttacks|
  }

  /** A list of variables that stand for arguments, each once. */
  ghost predicate NamesOnce(nameOf: seq<Arg>, reduced: map<Arg, nat>, ids: seq<nat>) {
    (forall v :: v in ids ==> IsVariable(nameOf, reduced, v)) && forall i, j :: 0 <= i < j < |ids| ==> ids[i] != ids[j]
  }

  /** All preferred extensions; `reduced` gives each argument its variable. */
  method Preferred(nameOf: seq<Arg>, varOf: map<Arg, nat>, attacks: Attacks, step: int) returns (reduced: map<Arg, nat>, exts: seq<seq<nat>>)
    requires Problem(nameOf, varOf, attacks, step)
    ensures ListsExactly(nameOf, reduced, exts, PreferredExts(FrameworkAfter(nameOf, attacks, step)))
    ensures forall x :: x in exts ==> NamesOnce(nameOf, reduced, x)
  {
    hide ListsExactly, MergesBase, Numbered, IsVariable;
    var n;
    ghost var e;
    reduced, n, e := ReduceBase(nameOf, varOf, attacks, true);
    BaseMergesComplete(Plain(nameOf, reduced), FrameworkAfter(nameOf, attacks, step));
    exts := AllPreferred(nameOf, reduced, n, attacks, step);
  }

  /** The ideal extension. */
  method Ideal(nameOf: seq<Arg>, varOf: map<Arg, nat>, attacks: Attacks, step: int) returns (reduced: map<Arg, nat>, ids: seq<nat>)
    requires Problem(nameOf, varOf, attacks, step)
    ensures Argumentation.Ideal(FrameworkAfter(nameOf, attacks, step), ArgsOf(nameOf, reduced, ids)) && NamesOnce(nameOf, reduced, ids)
  {
    hide MergesBase, Numbered, IsVariable;
    var n;
    ghost var e;
    reduced, n, e := ReduceBase(nameOf, varOf, attacks, true);
    BaseMergesComplete(Plain(nameOf, reduced), FrameworkAfter(nameOf, attacks, step));
    ids := JustComputeOneExtension(nameOf, reduced, n, attacks, step);
  }

  /** All complete extensions. */
  method Complete(nameOf: seq<Arg>, varOf: map<Arg, nat>, attacks: Attacks, step: int) returns (reduced: map<Arg, nat>, models: seq<seq<bool>>)
    requires Problem(nameOf, varOf, attacks, step)
    ensures ListsModels(nameOf, reduced, models, CompleteExts(FrameworkAfter(nameOf, attacks, step)))
  {
    hide ListsModels, InputOk, MergesBase, Numbered;
    var n;
    ghost var e;
    reduced, n, e := ReduceBase(nameOf, varOf, attacks, true);
    BaseMergesComplete(Plain(nameOf, reduced), FrameworkAfter(nameOf, attacks, step));
    models := AllComplete(nameOf, reduced, n, attacks, step);
  }

  /** All semi-stable extensions. */
  method SemiStable(nameOf: seq<Arg>, varOf: map<Arg, nat>, attacks: Attacks, step: int) returns (reduced: map<Arg, nat>, models: seq<seq<bool>>)
    requires Problem(nameOf, varOf, attacks, step)
    ensures ListsModels(nameOf, reduced, models, RangeExts(FrameworkAfter(nameOf, attacks, step), true))
  {
    hide ListsModels, InputOk, MergesBase, Numbered;
    var n;
    ghost var e;
    reduced, n, e := ReduceBase(nameOf, varOf, attacks, true);
    models := AllRangeBased(nameOf, reduced, n, attacks, step, true);
  }

  /** All stage extensions. */
  method Stage(nameOf: seq<Arg>, varOf: map<Arg, nat>, attacks: Attacks, step: int) returns (reduced: map<Arg, nat>, models: seq<seq<bool>>)
    requires Problem(nameOf, varOf, attacks, step)
    ensures ListsModels(nameOf, reduced, models, RangeExts(FrameworkAfter(nameOf, attacks, step), false))
  {
    hide ListsModels, InputOk, MergesBase, Numbered;
    var n;
    ghost var e;
    reduced, n, e := ReduceBase(nameOf, varOf, attacks, false);
    models := AllRangeBased(nameOf, reduced, n, attacks, step, false);
  }

  /** All stable extensions. */
  method Stable(nameOf: seq<Arg>, varOf: map<Arg, nat>, attacks: Attacks, step: int) returns (reduced: map<Arg, nat>, models: seq<seq<bool>>)
    requires Problem(nameOf, varOf, attacks, step)
    ensures ListsModels(nameOf, reduced, models, StableExts(FrameworkAfter(nameOf, attacks, step)))
  {
    hide ListsModels, InputOk, MergesStable, Numbered;
    var n;
    ghost var e;
    reduced, n, e := ReduceStable(nameOf, varOf, attacks);
    models := AllStable(nameOf, reduced, n, attacks, step);
  }
}
