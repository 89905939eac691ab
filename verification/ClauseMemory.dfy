/** Clauses in one flat region of words, and their relocation to another region with forwarding references. */
module ClauseMemory {
  import opened Cnf

  /** The number of words of a clause header. */
  const HEADER_WORDS: nat := 3

  datatype Header = Header(mark: nat, learnt: bool, hasExtra: bool, reloced: bool, lbd: nat, canBeDel: bool, size: nat, sizeWithoutSelectors: nat)

  /** A word of the region: what was last written there. */
  datatype Word = Head(header: Header) | HeadRest | LitWord(lit: Lit) | ActWord(act: real) | AbsWord(abs: set<nat>) | RelWord(rel: nat)

  type Memory = seq<Word>

  /** Words of a clause. */
  function Words(h: Header): nat {
    HEADER_WORDS + h.size + if h.hasExtra then 1 else 0
  }

  /** The reference lies in the region, with a header and all the words the header promises. */
  predicate Fits(mem: Memory, r: nat) {
    r < |mem| && mem[r].Head? && r + Words(mem[r].header) <= |mem| && mem[r].header.size >= 1
    && (mem[r].header.learnt ==> mem[r].header.hasExtra)
  }

  function End(mem: Memory, r: nat): nat
    requires Fits(mem, r)
  {
    r + Words(mem[r].header)
  }

  /** The word number `k` behind the header. */
  function Data(mem: Memory, r: nat, k: nat): Word
    requires r + HEADER_WORDS + k < |mem|
  {
    mem[r + HEADER_WORDS + k]
  }

  /** A clause whose words are what its header says: literals, and the activity or abstraction behind them. */
  predicate IsClause(mem: Memory, r: nat) {
    && Fits(mem, r) && !mem[r].header.reloced
    && (forall k: nat :: k < mem[r].header.size ==> Data(mem, r, k).LitWord?)
    && (mem[r].header.hasExtra ==> if mem[r].header.learnt then Extra(mem, r).ActWord? else Extra(mem, r).AbsWord?)
  }

  /** The word that follows the literals. */
  function Extra(mem: Memory, r: nat): Word
    requires Fits(mem, r) && mem[r].header.hasExtra
  {
    Data(mem, r, mem[r].header.size)
  }

  /** The clause has gone, and left its new reference in place of its first literal. */
  predicate IsForwarded(before: Memory, mem: Memory, r: nat, to: nat) {
    && Fits(before, r) && Fits(mem, r) && |mem| == |before|
    && mem[r] == Head(before[r].header.(reloced := true)) && Data(mem, r, 0) == RelWord(to)
  }

  function LitAt(mem: Memory, r: nat, k: nat): Lit
    requires IsClause(mem, r) && k < mem[r].header.size
  {
    Data(mem, r, k).lit
  }

  function LitsAt(mem: Memory, r: nat): (c: Clause)
    requires IsClause(mem, r)
    ensures |c| == mem[r].header.size
  {
    seq(mem[r].header.size, k requires 0 <= k < mem[r].header.size => LitAt(mem, r, k))
  }

  /** Bit set of the variables modulo 32. */
  function Abstraction(c: Clause): set<nat> {
    set l | l in c :: l.v % 32
  }

  /** The clause at `s` in `b` is the one at `r` in `a`: its literals, its mark, and when learnt all it had been rated with;
      a problem clause has its abstraction where the region keeps one. */
  ghost predicate SameClause(a: Memory, r: nat, b: Memory, s: nat, abs: bool) {
    && IsClause(a, r) && IsClause(b, s) && LitsAt(b, s) == LitsAt(a, r)
    && b[s].header.mark == a[r].header.mark && b[s].header.learnt == a[r].header.learnt
    && (if a[r].header.learnt then
          && b[s].header.lbd == a[r].header.lbd && b[s].header.canBeDel == a[r].header.canBeDel
          && b[s].header.sizeWithoutSelectors == a[r].header.sizeWithoutSelectors
          && Extra(b, s) == Extra(a, r)
        else (b[s].header.hasExtra <==> abs) && (abs ==> Extra(b, s) == AbsWord(Abstraction(LitsAt(a, r)))))
  }

  ghost predicate Apart(mem: Memory, r: nat, s: nat) {
    Fits(mem, r) && Fits(mem, s) && (End(mem, r) <= s || End(mem, s) <= r)
  }

  /** The clauses with these references lie in the region without overlap. */
  ghost predicate Heap(mem: Memory, refs: set<nat>) {
    (forall r :: r in refs ==> IsClause(mem, r)) && forall r, s :: r in refs && s in refs && r != s ==> Apart(mem, r, s)
  }

  /** The words of the clause at `r` are the same in both regions. */
  ghost predicate SameWords(a: Memory, b: Memory, r: nat) {
    Fits(a, r) && |a| == |b| && forall k :: r <= k < End(a, r) ==> b[k] == a[k]
  }

  lemma SameWordsClause(a: Memory, b: Memory, r: nat)
    requires IsClause(a, r) && SameWords(a, b, r)
    ensures IsClause(b, r) && LitsAt(b, r) == LitsAt(a, r) && b[r] == a[r] && End(b, r) == End(a, r)
  {
    assert b[r] == a[r];
    forall k: nat | k < Words(a[r].header) - HEADER_WORDS ensures Data(b, r, k) == Data(a, r, k) { }
    assert LitsAt(b, r) == LitsAt(a, r);
  }

  // ----- the state of a collection -----

  /** Between `before` and now, exactly the clauses of `f` have been moved, each to `f[r]` in the new region. */
  ghost predicate Moving(before: Memory, refs: set<nat>, now: Memory, to: Memory, f: map<nat, nat>, abs: bool) {
    && Heap(before, refs) && f.Keys <= refs && |now| == |before|
    && (forall r :: r in refs && r !in f ==> SameWords(before, now, r))
    && (forall r :: r in f ==> IsForwarded(before, now, r, f[r]))
    && (forall r :: r in f ==> SameClause(before, r, to, f[r], abs))
    && forall r, s :: r in f && s in f && r != s ==> Apart(to, f[r], f[s])
  }

  lemma NothingMoved(mem: Memory, refs: set<nat>, abs: bool)
    requires Heap(mem, refs)
    ensures Moving(mem, refs, mem, [], map[], abs)
  {
  }

  /** A moved clause is recognised, and found where it went; one not moved is still whole. */
  lemma MovedOrWhole(before: Memory, refs: set<nat>, now: Memory, to: Memory, f: map<nat, nat>, r: nat, abs: bool)
    requires Moving(before, refs, now, to, f, abs) && r in refs
    ensures IsClause(before, r) && Fits(now, r) && (now[r].header.reloced <==> r in f)
    ensures r in f ==> IsForwarded(before, now, r, f[r])
    ensures r !in f ==> IsClause(now, r) && LitsAt(now, r) == LitsAt(before, r) && now[r] == before[r] && SameWords(before, now, r)
  {
    if r !in f { SameWordsClause(before, now, r); }
  }

  /** The words of a clause as the allocator lays them out. */
  function Block(c: Clause, h: Header, extra: Word): (b: Memory)
    requires h.size == |c|
    ensures |b| == Words(h)
  {
    [Head(h), HeadRest, HeadRest] + seq(|c|, i requires 0 <= i < |c| => LitWord(c[i])) + if h.hasExtra then [extra] else []
  }

  lemma BlockIsClause(mem: Memory, c: Clause, h: Header, extra: Word)
    requires h.size == |c| >= 1 && !h.reloced && (h.learnt ==> h.hasExtra)
    requires h.hasExtra ==> if h.learnt then extra.ActWord? else extra.AbsWord?
    ensures var m := mem + Block(c, h, extra);
      && IsClause(m, |mem|) && LitsAt(m, |mem|) == c && m[|mem|] == Head(h) && End(m, |mem|) == |m|
      && (h.hasExtra ==> Extra(m, |mem|) == extra)
  {
    var m, b := mem + Block(c, h, extra), Block(c, h, extra);
    assert forall k :: 0 <= k < |b| ==> m[|mem| + k] == b[k];
    assert m[|mem| + 0] == b[0];
    forall k: nat | k < |c| ensures Data(m, |mem|, k) == LitWord(c[k]) { assert m[|mem| + (HEADER_WORDS + k)] == b[HEADER_WORDS + k]; }
    if h.hasExtra { assert m[|mem| + (HEADER_WORDS + h.size)] == b[HEADER_WORDS + h.size]; }
    assert LitsAt(m, |mem|) == c;
  }

  /** Appending to the region leaves its clauses alone. */
  lemma Appended(before: Memory, r: nat, to: Memory, s: nat, more: Memory, abs: bool)
    requires SameClause(before, r, to, s, abs)
    ensures SameClause(before, r, to + more, s, abs)
  {
    var m := to + more;
    assert forall k :: 0 <= k < |to| ==> m[k] == to[k];
    forall k: nat | k < Words(to[s].header) - HEADER_WORDS ensures Data(m, s, k) == Data(to, s, k) { }
    assert IsClause(m, s);
    assert LitsAt(m, s) == LitsAt(to, s);
  }

  lemma AppendedFits(to: Memory, s: nat, more: Memory)
    requires Fits(to, s)
    ensures Fits(to + more, s) && End(to + more, s) == End(to, s) <= |to|
  {
  }

  /** The region after leaving a forwarding reference. */
  function Forwarding(mem: Memory, r: nat, to: nat): (m: Memory)
    requires Fits(mem, r)
    ensures |m| == |mem|
  {
    mem[r := Head(mem[r].header.(reloced := true))][r + HEADER_WORDS := RelWord(to)]
  }

  /** Moving one more clause. */
  lemma MoveOne(before: Memory, refs: set<nat>, now: Memory, to: Memory, f: map<nat, nat>, r: nat, block: Memory, abs: bool)
    requires Moving(before, refs, now, to, f, abs) && r in refs && r !in f && SameClause(before, r, to + block, |to|, abs)
    ensures Fits(now, r) && Moving(before, refs, Forwarding(now, r, |to|), to + block, f[r := |to|], abs)
  {
    MovedOrWhole(before, refs, now, to, f, r, abs);
    var now', to', f' := Forwarding(now, r, |to|), to + block, f[r := |to|];
    forall s | s in f' ensures SameClause(before, s, to', f'[s], abs) {
      if s != r { Appended(before, s, to, f[s], block, abs); }
    }
    forall s | s in refs && s !in f' ensures SameWords(before, now', s) {
      assert Apart(before, r, s);
    }
    forall s | s in f' ensures IsForwarded(before, now', s, f'[s]) {
      if s != r { ForwardedStays(before, refs, now, to, f, r, s, abs); }
    }
    forall s, t | s in f' && t in f' && s != t ensures Apart(to', f'[s], f'[t]) {
      if s != r { AppendedFits(to, f[s], block); }
      if t != r { AppendedFits(to, f[t], block); }
      if s != r && t != r { assert Apart(to, f[s], f[t]); }
    }
  }

  lemma ForwardedStays(before: Memory, refs: set<nat>, now: Memory, to: Memory, f: map<nat, nat>, r: nat, s: nat, abs: bool)
    requires Moving(before, refs, now, to, f, abs) && r in refs && r !in f && s in f && Fits(now, r) && now[r] == before[r]
    ensures IsForwarded(before, Forwarding(now, r, |to|), s, f[s])
  {
    assert Apart(before, r, s);
    assert IsForwarded(before, now, s, f[s]);
  }
}
