/** The attack relation and the changes applied to it one after the other. */
module AttackStore {
  import opened Argumentation

  /** One change: an attack added or removed, and whether it was present initially. */
  datatype Change = Change(add: bool, from: Arg, to: Arg, initState: bool) {
    function Pair(): Attack {
      (from, to)
    }
  }

  /** The attacks after the first `k` changes. */
  ghost function Replay(initial: set<Attack>, changes: seq<Change>, k: nat): set<Attack>
    requires k <= |changes|
  {
    if k == 0 then initial
    else if changes[k - 1].add then Replay(initial, changes, k - 1) + {changes[k - 1].Pair()}
    else Replay(initial, changes, k - 1) - {changes[k - 1].Pair()}
  }

  ghost predicate ChangedBefore(changes: seq<Change>, k: nat, p: Attack)
    requires k <= |changes|
  {
    exists i :: 0 <= i < k && changes[i].Pair() == p
  }

  /** A pair never changed is present exactly when it was initially. */
  lemma {:induction false} ReplayUnchanged(initial: set<Attack>, changes: seq<Change>, k: nat, p: Attack)
    requires k <= |changes| && !ChangedBefore(changes, k, p)
    ensures p in Replay(initial, changes, k) <==> p in initial
  {
    if k > 0 { ReplayUnchanged(initial, changes, k - 1, p); }
  }

  /** Otherwise its last change decides. */
  lemma {:induction false} ReplayLast(initial: set<Attack>, changes: seq<Change>, k: nat, p: Attack, i: nat)
    requires i < k <= |changes| && changes[i].Pair() == p
    requires forall j :: i < j < k ==> changes[j].Pair() != p
    ensures p in Replay(initial, changes, k) <==> changes[i].add
  {
    if i < k - 1 { ReplayLast(initial, changes, k - 1, p, i); }
  }

  lemma ReplayWithin(initial: set<Attack>, changes: seq<Change>, k: nat)
    requires k <= |changes|
    ensures forall p :: p in Replay(initial, changes, k) ==> p in initial || ChangedBefore(changes, |changes|, p)
  {
    if k > 0 {
      ReplayWithin(initial, changes, k - 1);
      assert changes[k - 1].Pair() == changes[k - 1].Pair();
    }
  }

  ghost function Pairs(attacks: map<Arg, seq<Arg>>): set<Attack> {
    set t, b | t in attacks && b in attacks[t] :: (b, t)
  }

  function To(attacks: map<Arg, seq<Arg>>, a: Arg): seq<Arg> {
    if a in attacks then attacks[a] else []
  }

  lemma PairsTo(attacks: map<Arg, seq<Arg>>, b: Arg, t: Arg)
    ensures (b, t) in Pairs(attacks) <==> b in To(attacks, t)
  {
  }

  /** The stored attacks are the initial ones and the changed ones, and every change remembers
      whether its pair was present initially. */
  ghost predicate Recorded(attacks: map<Arg, seq<Arg>>, changes: seq<Change>, initial: set<Attack>) {
    && (forall p :: p in Pairs(attacks) <==> p in initial || ChangedBefore(changes, |changes|, p))
    && (forall i :: 0 <= i < |changes| ==> (changes[i].initState <==> changes[i].Pair() in initial))
  }

  class Attacks {
    var attacks: map<Arg, seq<Arg>>
    var nMaxAttacks: nat
    var dynAttacks: seq<Change>
    /** The attacks of the initial framework. */
    ghost var initial: set<Attack>

    constructor ()
      ensures Valid() && initial == {} && dynAttacks == []
    {
      attacks, nMaxAttacks, dynAttacks, initial := map[], 0, [], {};
    }

    ghost predicate Valid()
      reads this
    {
      && Recorded(attacks, dynAttacks, initial)
      && forall t :: t in attacks ==> |attacks[t]| <= nMaxAttacks
    }

    /** Adds an attack to the initial framework. Changes recorded before go on telling what was initial then:
        they are out of date exactly if one of them is about this attack, and the attack is new. */
    method AddAttack(from: Arg, to: Arg)
      requires Valid()
      modifies this
      ensures initial == old(initial) + {(from, to)} && dynAttacks == old(dynAttacks)
      ensures To(attacks, to) == To(old(attacks), to) + [from]
      ensures forall t :: t != to ==> To(attacks, t) == To(old(attacks), t)
      ensures Valid() <==> (from, to) in old(initial) || !ChangedBefore(dynAttacks, |dynAttacks|, (from, to))
    {
      Push(from, to);
      initial := initial + {(from, to)};
      forall p ensures p in Pairs(attacks) <==> p in initial || ChangedBefore(dynAttacks, |dynAttacks|, p) {
        PairsTo(attacks, p.0, p.1);
        PairsTo(old(attacks), p.0, p.1);
      }
      if (from, to) in old(initial) { assert initial == old(initial); }
    }

    method Push(from: Arg, to: Arg)
      requires forall t :: t in attacks ==> |attacks[t]| <= nMaxAttacks
      modifies this`attacks, this`nMaxAttacks
      ensures forall t :: t in attacks ==> |attacks[t]| <= nMaxAttacks
      ensures To(attacks, to) == To(old(attacks), to) + [from]
      ensures forall t :: t != to ==> To(attacks, t) == To(old(attacks), t)
    {
      attacks := attacks[to := To(attacks, to) + [from]];
      if |attacks[to]| > nMaxAttacks { nMaxAttacks := |attacks[to]|; }
    }

    /** Whether the attack was in the initial framework. */
    method WasPresent(from: Arg, to: Arg) returns (wasPresent: bool)
      requires Valid()
      ensures wasPresent <==> (from, to) in initial
    {
      PairsTo(attacks, from, to);
      wasPresent := from in To(attacks, to);
      if wasPresent {
        var j := 0;
        while j < |dynAttacks|
          invariant 0 <= j <= |dynAttacks| && forall i :: 0 <= i < j ==> dynAttacks[i].Pair() != (from, to)
        {
          if dynAttacks[j].from == from && dynAttacks[j].to == to {
            return dynAttacks[j].initState;
          }
          j := j + 1;
        }
      }
    }

    /** Records a change; an attack that may appear later is stored from the start. */
    method AddDynAttack(add: bool, from: Arg, to: Arg)
      requires Valid()
      modifies this
      ensures Valid() && initial == old(initial)
      ensures |dynAttacks| == |old(dynAttacks)| + 1 && dynAttacks[..|old(dynAttacks)|] == old(dynAttacks)
      ensures dynAttacks[|old(dynAttacks)|].add == add && dynAttacks[|old(dynAttacks)|].Pair() == (from, to)
    {
      var wasPresent := WasPresent(from, to);
      if !wasPresent { Push(from, to); }
      dynAttacks := dynAttacks + [Change(add, from, to, wasPresent)];
      StillRecorded(old(attacks), attacks, old(dynAttacks), dynAttacks, initial);
    }
  }

  lemma StillRecorded(attacks0: map<Arg, seq<Arg>>, attacks: map<Arg, seq<Arg>>, changes0: seq<Change>, changes: seq<Change>, initial: set<Attack>)
    requires Recorded(attacks0, changes0, initial)
    requires |changes| == |changes0| + 1 && changes[..|changes0|] == changes0
    requires forall b, t :: b in To(attacks, t) <==> b in To(attacks0, t) || ((b, t) == changes[|changes0|].Pair() && (b, t) !in initial)
    requires changes[|changes0|].initState <==> changes[|changes0|].Pair() in initial
    ensures Recorded(attacks, changes, initial)
  {
    var n := |changes0|;
    forall i | 0 <= i < n ensures changes[i] == changes0[i] { }
    forall p ensures p in Pairs(attacks) <==> p in initial || ChangedBefore(changes, |changes|, p) {
      PairsTo(attacks, p.0, p.1);
      PairsTo(attacks0, p.0, p.1);
      assert p in Pairs(attacks0) <==> p in initial || ChangedBefore(changes0, n, p);
      if ChangedBefore(changes0, n, p) {
        var i :| 0 <= i < n && changes0[i].Pair() == p;
        assert changes[i].Pair() == p;
      }
    }
  }
}
