/** Why the search ends: the numbers of literals per decision level, read as the digits of one
    number, grow with every conflict and with every decision. */
module Progress {
  import opened Cnf
  import opened Trail

  function Pow(b: nat, e: nat): nat {
    if e == 0 then 1 else b * Pow(b, e - 1)
  }

  lemma PowPositive(b: nat, e: nat)
    requires b > 0
    ensures Pow(b, e) > 0
  {
    if e > 0 { PowPositive(b, e - 1); }
  }

  /** The digits `s`, increased by one, as the leading digits of a number of `d` digits in base `b`. */
  function Number(s: seq<nat>, d: nat, b: nat): nat
    requires |s| <= d
  {
    if s == [] then 0 else (s[0] + 1) * Pow(b, d - 1) + Number(s[1..], d - 1, b)
  }

  ghost predicate DigitsBelow(s: seq<nat>, b: nat) {
    forall i :: 0 <= i < |s| ==> s[i] + 1 < b
  }

  lemma {:induction false} NumberBound(s: seq<nat>, d: nat, b: nat)
    requires |s| <= d && DigitsBelow(s, b) && b > 0
    ensures Number(s, d, b) < Pow(b, d)
  {
    if s == [] {
      PowPositive(b, d);
    } else {
      var p := Pow(b, d - 1);
      NumberBound(s[1..], d - 1, b);
      assert (s[0] + 1) * p + p == (s[0] + 2) * p <= b * p;
    }
  }

  /** The first different digit decides; a proper prefix is smaller. */
  lemma {:induction false} NumberLess(s: seq<nat>, s': seq<nat>, k: nat, d: nat, b: nat)
    requires |s| <= d && |s'| <= d && DigitsBelow(s, b) && b > 0
    requires k <= |s| && k < |s'| && s[..k] == s'[..k]
    requires k == |s| || s[k] < s'[k]
    ensures Number(s, d, b) < Number(s', d, b)
  {
    var p := Pow(b, d - 1);
    PowPositive(b, d - 1);
    if k > 0 {
      assert s[0] == s[..k][0] == s'[0];
      assert s[1..][..k - 1] == s[..k][1..] && s'[1..][..k - 1] == s'[..k][1..];
      NumberLess(s[1..], s'[1..], k - 1, d - 1, b);
    } else if |s| == 0 {
      Multiples(1, s'[0] + 1, p);
    } else {
      NumberBound(s[1..], d - 1, b);
      Multiples(s[0] + 2, s'[0] + 1, p);
    }
  }

  lemma Multiples(x: nat, y: nat, p: nat)
    requires x <= y
    ensures x * p <= y * p && (x > 0 ==> x * p == (x - 1) * p + p)
  {
  }

  ghost predicate Sorted(lim: seq<nat>, len: nat) {
    && (forall k :: 0 <= k < |lim| ==> lim[k] <= len)
    && (forall j, k :: 0 <= j < k < |lim| ==> lim[j] <= lim[k])
  }

  function Start(lim: seq<nat>, k: nat): nat
    requires k <= |lim|
  {
    if k == 0 then 0 else lim[k - 1]
  }

  function End(lim: seq<nat>, len: nat, k: nat): nat
    requires k <= |lim|
  {
    if k == |lim| then len else lim[k]
  }

  /** Number of literals on each level. */
  function Sizes(lim: seq<nat>, len: nat): (s: seq<nat>)
    requires Sorted(lim, len)
    ensures |s| == |lim| + 1
  {
    seq(|lim| + 1, k requires 0 <= k <= |lim| && Sorted(lim, len) => End(lim, len, k) - Start(lim, k))
  }

  /** Levels beyond the first `a` are not empty. */
  ghost predicate LevelsBound(lim: seq<nat>, len: nat, a: nat) {
    Sorted(lim, len) && |lim| <= a + len && forall k :: 0 <= k < |lim| ==> k <= a + lim[k]
  }

  lemma LevelCount(lim: seq<nat>, len: nat, a: nat)
    requires LevelsBound(lim, len, a)
    ensures |lim| <= a + len
  {
  }

  lemma LevelsGrow(lim: seq<nat>, len: nat, len': nat, a: nat)
    requires LevelsBound(lim, len, a) && len <= len'
    ensures LevelsBound(lim, len', a)
  {
  }

  lemma LevelsBack(lim: seq<nat>, len: nat, bt: nat, len': nat, a: nat)
    requires LevelsBound(lim, len, a) && bt < |lim| && lim[bt] <= len'
    ensures LevelsBound(lim[..bt], len', a)
  {
  }

  lemma LevelsDummy(lim: seq<nat>, len: nat, a: nat)
    requires LevelsBound(lim, len, a) && |lim| < a
    ensures LevelsBound(lim + [len], len, a)
  {
  }

  lemma LevelsDecide(lim: seq<nat>, len: nat, a: nat)
    requires LevelsBound(lim, len, a)
    ensures LevelsBound(lim + [len], len + 1, a)
  {
  }

  ghost function Rank(lim: seq<nat>, len: nat, a: nat, n: nat): nat
    requires LevelsBound(lim, len, a) && len <= n
  {
    Number(Sizes(lim, len), a + n + 1, n + 2)
  }

  ghost function RankLimit(a: nat, n: nat): nat {
    Pow(n + 2, a + n + 1)
  }

  lemma SizesBelow(lim: seq<nat>, len: nat, n: nat)
    requires Sorted(lim, len) && len <= n
    ensures DigitsBelow(Sizes(lim, len), n + 2)
  {
  }

  lemma RankBound(lim: seq<nat>, len: nat, a: nat, n: nat)
    requires LevelsBound(lim, len, a) && len <= n
    ensures Rank(lim, len, a, n) < RankLimit(a, n)
  {
    SizesBelow(lim, len, n);
    NumberBound(Sizes(lim, len), a + n + 1, n + 2);
  }

  /** Backtracking to a lower level and adding a literal there. */
  lemma RankBacktrack(lim: seq<nat>, len: nat, bt: nat, len': nat, a: nat, n: nat)
    requires LevelsBound(lim, len, a) && len <= n && bt < |lim| && lim[bt] < len' <= n
    requires LevelsBound(lim[..bt], len', a)
    ensures Rank(lim, len, a, n) < Rank(lim[..bt], len', a, n)
  {
    var s, s' := Sizes(lim, len), Sizes(lim[..bt], len');
    SizesBelow(lim, len, n);
    forall k | 0 <= k < bt ensures s[k] == s'[k] {
      assert Start(lim[..bt], k) == Start(lim, k) && End(lim[..bt], len', k) == End(lim, len, k);
    }
    assert s[..bt] == s'[..bt];
    assert Start(lim[..bt], bt) == Start(lim, bt);
    NumberLess(s, s', bt, a + n + 1, n + 2);
  }

  /** Adding literals to the current level and then opening further levels. */
  lemma RankDecide(lim: seq<nat>, len: nat, lim': seq<nat>, len': nat, a: nat, n: nat)
    requires LevelsBound(lim, len, a) && len <= n && LevelsBound(lim', len', a) && len' <= n
    requires |lim| < |lim'| && lim == lim'[..|lim|] && len <= lim'[|lim|]
    ensures Rank(lim, len, a, n) < Rank(lim', len', a, n)
  {
    var s, s' := Sizes(lim, len), Sizes(lim', len');
    SizesBelow(lim, len, n);
    var k := |lim|;
    forall j | 0 <= j < k ensures s[j] == s'[j] {
      assert Start(lim', j) == Start(lim, j) && End(lim', len', j) == End(lim, len, j);
    }
    assert Start(lim', k) == Start(lim, k);
    if s[k] < s'[k] {
      assert s[..k] == s'[..k];
      NumberLess(s, s', k, a + n + 1, n + 2);
    } else {
      assert s[..k + 1] == s'[..k + 1];
      NumberLess(s, s', k + 1, a + n + 1, n + 2);
    }
  }

  // ----- the Luby restart sequence -----

  lemma PowGrows(e: nat)
    ensures Pow(2, e) > e
  {
    if e > 0 { PowGrows(e - 1); }
  }

  lemma PowMonotone(a: nat, b: nat)
    requires Pow(2, a) < Pow(2, b)
    ensures a < b
  {
    if a >= b { PowUp(b, a); }
  }

  lemma PowUp(a: nat, b: nat)
    requires a <= b
    ensures Pow(2, a) <= Pow(2, b)
  {
    if a < b { PowUp(a, b - 1); PowPositive(2, b - 1); }
  }

  /** Position `x` ends the block of the Luby sequence that reaches 2 to the `e`. */
  ghost predicate BlockEnd(x: nat, e: nat) {
    x + 2 == Pow(2, e + 1)
  }

  lemma BlockEndUnique(x: nat, e: nat, sq: nat)
    requires BlockEnd(x, e) && Pow(2, sq) < x + 2 <= Pow(2, sq + 1)
    ensures sq == e
  {
    PowMonotone(sq, e + 1);
    if sq < e { PowUp(sq + 1, e); }
  }

  /** The first terms of the Luby sequence: each block is the previous one twice, and a new maximum. */
  ghost function Block(e: nat): (b: seq<nat>)
    ensures |b| + 1 == Pow(2, e)
  {
    if e == 0 then [] else Block(e - 1) + Block(e - 1) + [Pow(2, e - 1)]
  }

  lemma {:induction false} BlockPrefix(e: nat, d: nat, x: nat)
    requires e <= d && x < |Block(e)|
    ensures x < |Block(d)| && Block(d)[x] == Block(e)[x]
    decreases d
  {
    if e < d { BlockPrefix(e, d - 1, x); }
  }

  /** The `x`-th term of 1, 1, 2, 1, 1, 2, 4, ..., whichever block it is looked up in; the last term
      of each block is its maximum. */
  method Luby(x: nat) returns (r: nat)
    ensures r >= 1
    ensures forall e: nat :: x < |Block(e)| ==> r == Block(e)[x]
    ensures forall e: nat :: BlockEnd(x, e) ==> r == Pow(2, e)
  {
    var size, sq := 1, 0;
    while size < x + 1
      invariant size + 1 == Pow(2, sq + 1) && Pow(2, sq) < x + 2
    {
      sq := sq + 1;
      size := 2 * size + 1;
    }
    forall e: nat | BlockEnd(x, e) ensures sq == e && size - 1 == x {
      BlockEndUnique(x, e, sq);
    }
    r := LubyInBlock(x, size, sq);
    forall e: nat | x < |Block(e)| ensures r == Block(e)[x] {
      if e <= sq + 1 { BlockPrefix(e, sq + 1, x); } else { BlockPrefix(sq + 1, e, x); }
    }
  }

  method LubyInBlock(x: nat, size0: nat, sq0: nat) returns (r: nat)
    requires size0 + 1 == Pow(2, sq0 + 1) && x < size0
    ensures r >= 1 && r == Block(sq0 + 1)[x]
    ensures size0 - 1 == x ==> r == Pow(2, sq0)
  {
    var y, size, sq := x, size0, sq0;
    while size - 1 != y
      invariant size + 1 == Pow(2, sq + 1) && 0 <= y < size == |Block(sq + 1)|
      invariant Block(sq + 1)[y] == Block(sq0 + 1)[x]
      invariant size0 - 1 == x ==> sq == sq0 && size - 1 == y
      decreases size
    {
      Half(size, sq);
      HalfBlock(sq, y);
      size := (size - 1) / 2;
      sq := sq - 1;
      y := y % size;
    }
    PowPositive(2, sq);
    r := Pow(2, sq);
  }

  lemma ModLow(y: nat, n: nat)
    requires y < n
    ensures y % n == y
  {
  }

  lemma ModHigh(y: nat, n: nat)
    requires n <= y < 2 * n
    ensures y % n == y - n
  {
    ModLow(y - n, n);
    assert y == n + (y - n);
  }

  /** A position before the end of a block is in one of its two halves. */
  lemma HalfBlock(sq: nat, y: nat)
    requires sq > 0 && y + 1 < |Block(sq + 1)|
    ensures |Block(sq)| == (|Block(sq + 1)| - 1) / 2 && |Block(sq)| > 0 && Block(sq + 1)[y] == Block(sq)[y % |Block(sq)|]
  {
    var b, n, whole := Block(sq), |Block(sq)|, Block(sq + 1);
    assert whole == b + b + [Pow(2, sq)];
    hide Block, Pow;
    if y < n {
      ModLow(y, n);
    } else {
      ModHigh(y, n);
      assert whole[y] == b[y - n];
    }
  }

  lemma Half(size: nat, sq: nat)
    requires size + 1 == Pow(2, sq + 1) && size > 1
    ensures sq > 0 && (size - 1) / 2 + 1 == Pow(2, sq) && (size - 1) / 2 > 0
  {
    assert Pow(2, 1) == 2 * Pow(2, 0);
  }
}
