/** The CNF delta debugger: what it saves is accepted, it stops, and nothing more can be deleted from its result. */
module DeltaDebugging {
  import opened Cnf
  import Trail

  const INT_MAX: int := 0x7fff_ffff
  const TRUE: int := INT_MAX
  const FALSE: int := -INT_MAX

  /** The clauses of a printed file. */
  type File = seq<seq<int>>

  /** A printed file: the two numbers of the header, and the clauses. */
  datatype Text = Text(vars: nat, count: nat, lines: File)

  function Abs(x: int): nat {
    if x < 0 then -x else x
  }

  /** A literal of the input, or one that has been removed. */
  predicate LitOk(lit: int, maxidx: nat) {
    lit == FALSE || (lit != 0 && Abs(lit) <= maxidx)
  }

  predicate ClauseOk(c: seq<int>, maxidx: nat) {
    forall j :: 0 <= j < |c| ==> LitOk(c[j], maxidx)
  }

  predicate MovedOk(movedto: seq<nat>, maxidx: nat) {
    |movedto| == maxidx + 1 && maxidx < INT_MAX && forall i :: 1 <= i <= maxidx ==> 1 <= movedto[i] <= maxidx
  }

  /** The literal as it is printed. */
  function Deref(movedto: seq<nat>, lit: int): (r: int)
    requires Abs(lit) == INT_MAX || Abs(lit) < |movedto|
  {
    if lit == 0 then 0
    else if Abs(lit) == INT_MAX then lit
    else
      var moved: int := movedto[Abs(lit)];
      if lit < 0 then -moved else moved
  }

  /** The sign is kept. */
  lemma DerefSign(movedto: seq<nat>, lit: int)
    requires Abs(lit) == INT_MAX || Abs(lit) < |movedto|
    ensures Deref(movedto, -lit) == -Deref(movedto, lit)
  {
  }

  function Out(movedto: seq<nat>, c: seq<int>, maxidx: nat): seq<int>
    requires MovedOk(movedto, maxidx) && ClauseOk(c, maxidx)
  {
    if c == [] then [] else
      var l := c[|c| - 1];
      Out(movedto, c[..|c| - 1], maxidx) + if l == FALSE then [] else [Deref(movedto, l)]
  }

  /** The clauses that are left. */
  function Compact(cs: seq<Option<seq<int>>>): seq<seq<int>> {
    if cs == [] then [] else Compact(cs[..|cs| - 1]) + if cs[|cs| - 1].Some? then [cs[|cs| - 1].value] else []
  }

  predicate AllOk(cs: seq<Option<seq<int>>>, maxidx: nat) {
    forall i :: 0 <= i < |cs| && cs[i].Some? ==> ClauseOk(cs[i].value, maxidx)
  }

  lemma {:induction false} CompactOk(cs: seq<Option<seq<int>>>, maxidx: nat)
    requires AllOk(cs, maxidx)
    ensures forall k :: 0 <= k < |Compact(cs)| ==> ClauseOk(Compact(cs)[k], maxidx)
  {
    if cs != [] { CompactOk(cs[..|cs| - 1], maxidx); }
  }

  function Lines(movedto: seq<nat>, ds: seq<seq<int>>, maxidx: nat): (f: File)
    requires MovedOk(movedto, maxidx) && forall k :: 0 <= k < |ds| ==> ClauseOk(ds[k], maxidx)
    ensures |f| == |ds|
  {
    seq(|ds|, k requires 0 <= k < |ds| => Out(movedto, ds[k], maxidx))
  }

  function Printed(movedto: seq<nat>, cs: seq<Option<seq<int>>>, maxidx: nat): File
    requires MovedOk(movedto, maxidx) && AllOk(cs, maxidx)
  {
    CompactOk(cs, maxidx);
    Lines(movedto, Compact(cs), maxidx)
  }

  function MaxIn(c: seq<int>): nat {
    if c == [] then 0 else Max(MaxIn(c[..|c| - 1]), Abs(c[|c| - 1]))
  }

  /** The largest index in a file. */
  function MaxVar(f: File): nat {
    if f == [] then 0 else Max(MaxVar(f[..|f| - 1]), MaxIn(f[|f| - 1]))
  }

  /** The file with the header that its clauses determine. */
  function TextOf(f: File): Text {
    Text(MaxVar(f), |f|, f)
  }

  function Max(a: nat, b: nat): nat {
    if a < b then b else a
  }

  // ----- where a file comes from -----

  ghost predicate Increasing(s: seq<nat>) {
    forall i, j :: 0 <= i < j < |s| ==> s[i] < s[j]
  }

  /** Different variables have different names. */
  ghost predicate Injective(to: seq<nat>) {
    (forall v :: 1 <= v < |to| ==> to[v] >= 1) && forall u, v :: 1 <= u < v < |to| ==> to[u] != to[v]
  }

  /** The literal `x` is `l` under the new name of its variable, with the same sign. */
  ghost predicate Named(x: int, l: int, to: seq<nat>) {
    l != 0 && Abs(l) < |to| && Abs(x) == to[Abs(l)] && (x < 0 <==> l < 0)
  }

  /** The line has the literals of `c` at the indices `keep`, renamed. */
  ghost predicate PickedBy(line: seq<int>, c: seq<int>, to: seq<nat>, keep: seq<nat>) {
    |keep| == |line| && Increasing(keep) && forall p :: 0 <= p < |line| ==> keep[p] < |c| && Named(line[p], c[keep[p]], to)
  }

  ghost predicate Picked(line: seq<int>, c: seq<int>, to: seq<nat>) {
    exists keep :: PickedBy(line, c, to, keep)
  }

  /** Every line is a subsequence of the source clause chosen for it, renamed; the choice goes up. */
  ghost predicate RenamedBy(src: File, f: File, to: seq<nat>, choice: seq<nat>) {
    && Injective(to) && |choice| == |f| && Increasing(choice)
    && forall k :: 0 <= k < |f| ==> choice[k] < |src| && Picked(f[k], src[choice[k]], to)
  }

  /** The file is a part of the source, with its variables renamed. */
  ghost predicate Renamed(src: File, f: File) {
    exists to, choice :: RenamedBy(src, f, to, choice)
  }

  /** The clause is the source clause with some literals removed. */
  predicate Trimmed(c: seq<int>, s: seq<int>) {
    |c| == |s| && forall j :: 0 <= j < |c| ==> c[j] == s[j] || c[j] == FALSE
  }

  /** Clause `k` comes from the source clause `origin[k]`. */
  ghost predicate OriginOk(src: File, origin: seq<nat>, cs: seq<Option<seq<int>>>) {
    && |origin| == |cs| && Increasing(origin)
    && forall k :: 0 <= k < |cs| ==> origin[k] < |src| && (cs[k].Some? ==> Trimmed(cs[k].value, src[origin[k]]))
  }

  ghost function OriginLeft(cs: seq<Option<seq<int>>>, origin: seq<nat>): seq<nat>
    requires |cs| == |origin|
  {
    if cs == [] then [] else OriginLeft(cs[..|cs| - 1], origin[..|cs| - 1]) + if cs[|cs| - 1].Some? then [origin[|cs| - 1]] else []
  }

  lemma OriginMore(src: File, before: seq<nat>, ds: seq<seq<int>>, o: nat, c: seq<int>)
    requires OriginOk(src, before, Somes(ds)) && (forall k :: 0 <= k < |before| ==> before[k] < o) && o < |src| && Trimmed(c, src[o])
    ensures OriginOk(src, before + [o], Somes(ds + [c]))
  {
    hide Trimmed;
    assert Somes(ds + [c]) == Somes(ds) + [Some(c)];
  }

  /** The last clause comes from later than the ones before it. */
  lemma OriginLast(src: File, origin: seq<nat>, cs: seq<Option<seq<int>>>)
    requires OriginOk(src, origin, cs) && cs != []
    ensures var n := |cs| - 1;
      && |origin| == |cs| && OriginOk(src, origin[..n], cs[..n]) && origin[n] < |src| && (cs[n].Some? ==> Trimmed(cs[n].value, src[origin[n]]))
      && forall x :: x in origin[..n] ==> x < origin[n]
  {
    hide Trimmed;
  }

  lemma {:induction false} OriginLeftIn(cs: seq<Option<seq<int>>>, origin: seq<nat>)
    requires |cs| == |origin|
    ensures forall x :: x in OriginLeft(cs, origin) ==> x in origin
  {
    if cs != [] {
      var n := |cs| - 1;
      OriginLeftIn(cs[..n], origin[..n]);
      assert origin == origin[..n] + [origin[n]];
    }
  }

  /** Closing the gaps keeps where the clauses come from. */
  lemma {:induction false} OriginCompact(src: File, origin: seq<nat>, cs: seq<Option<seq<int>>>)
    requires |cs| == |origin| && OriginOk(src, origin, cs)
    ensures OriginOk(src, OriginLeft(cs, origin), Somes(Compact(cs)))
  {
    if cs != [] {
      hide Trimmed, OriginOk;
      var n := |cs| - 1;
      var before := OriginLeft(cs[..n], origin[..n]);
      OriginLast(src, origin, cs);
      OriginCompact(src, origin[..n], cs[..n]);
      OriginLeftIn(cs[..n], origin[..n]);
      assert Compact(cs[..n]) + [] == Compact(cs[..n]) && before + [] == before;
      forall k | 0 <= k < |before| ensures before[k] < origin[n] { assert before[k] in before; }
      if cs[n].Some? { OriginMore(src, before, Compact(cs[..n]), origin[n], cs[n].value); }
    }
  }

  lemma OriginWithout(src: File, origin: seq<nat>, cs: seq<Option<seq<int>>>, i: nat, end: nat)
    requires OriginOk(src, origin, cs) && i <= end <= |cs|
    ensures OriginOk(src, origin, Without(cs, i, end))
  {
    var w := Without(cs, i, end);
    forall k: nat | k < |w| && w[k].Some? ensures w[k] == cs[k] { }
  }

  lemma OriginShrunk(src: File, origin: seq<nat>, cs: seq<Option<seq<int>>>, k: nat, j: nat)
    requires OriginOk(src, origin, cs) && k < |cs| && cs[k].Some? && j < |cs[k].value|
    ensures OriginOk(src, origin, Shrunk(cs, k, j))
  {
  }

  /** A printed line is a subsequence of the source clause, renamed. */
  lemma {:induction false} OutPicked(movedto: seq<nat>, c: seq<int>, maxidx: nat, s: seq<int>, to: seq<nat>) returns (keep: seq<nat>)
    requires MovedOk(movedto, maxidx) && ClauseOk(c, maxidx) && Trimmed(c, s) && |to| == |movedto|
    requires forall j :: 0 <= j < |c| && c[j] != FALSE ==> to[Abs(c[j])] == movedto[Abs(c[j])]
    ensures PickedBy(Out(movedto, c, maxidx), s, to, keep) && forall p :: 0 <= p < |keep| ==> keep[p] < |c|
  {
    keep := [];
    if c != [] {
      var n := |c| - 1;
      keep := OutPicked(movedto, c[..n], maxidx, s[..n], to);
      assert LitOk(c[n], maxidx);
      if c[n] != FALSE { keep := keep + [n]; }
    }
  }

  // ----- deleting -----

  /** The file without one of its clauses. */
  function WithoutLine(f: File, k: nat): File
    requires k < |f|
  {
    f[..k] + f[k + 1..]
  }

  function WithoutLiteral(f: File, k: nat, j: nat): File
    requires k < |f| && j < |f[k]|
  {
    f[k := f[k][..j] + f[k][j + 1..]]
  }

  function Without(cs: seq<Option<seq<int>>>, i: nat, end: nat): (r: seq<Option<seq<int>>>)
    requires i <= end <= |cs|
    ensures |r| == |cs|
  {
    cs[..i] + Nones(end - i) + cs[end..]
  }

  function Nones(n: nat): (r: seq<Option<seq<int>>>)
    ensures |r| == n && forall k :: 0 <= k < n ==> r[k] == None
  {
    seq(n, k => None)
  }

  function Somes(ds: seq<seq<int>>): (r: seq<Option<seq<int>>>)
    ensures |r| == |ds|
  {
    seq(|ds|, k requires 0 <= k < |ds| => Some(ds[k]))
  }

  lemma {:induction false} CompactSomes(ds: seq<seq<int>>)
    ensures Compact(Somes(ds)) == ds
  {
    if ds != [] {
      var t := ds[..|ds| - 1];
      CompactSomes(t);
      assert Somes(ds)[..|ds| - 1] == Somes(t);
      assert ds == t + [ds[|ds| - 1]];
    }
  }

  lemma {:induction false} CompactAppend(a: seq<Option<seq<int>>>, b: seq<Option<seq<int>>>)
    ensures Compact(a + b) == Compact(a) + Compact(b)
  {
    if b == [] {
      assert a + b == a;
    } else {
      CompactAppend(a, b[..|b| - 1]);
      assert (a + b)[..|a + b| - 1] == a + b[..|b| - 1];
    }
  }

  lemma {:induction false} CompactNone(cs: seq<Option<seq<int>>>)
    requires forall k :: 0 <= k < |cs| ==> cs[k].None?
    ensures Compact(cs) == []
  {
    if cs != [] { CompactNone(cs[..|cs| - 1]); }
  }

  lemma {:induction false} CompactSome(cs: seq<Option<seq<int>>>, i: nat)
    requires i < |cs| && cs[i].Some?
    ensures |Compact(cs)| >= 1
  {
    if i < |cs| - 1 { CompactSome(cs[..|cs| - 1], i); }
  }

  /** A window without its clauses leaves those before and after it. */
  lemma WithoutCompact(cs: seq<Option<seq<int>>>, i: nat, end: nat)
    requires i <= end <= |cs|
    ensures Compact(Without(cs, i, end)) == Compact(cs[..i]) + Compact(cs[end..])
    ensures Compact(cs) == Compact(cs[..i]) + Compact(cs[i..end]) + Compact(cs[end..])
  {
    hide Compact;
    CompactThree(cs, i, end);
    CompactGap(cs[..i], end - i, cs[end..]);
  }

  lemma CompactGap(a: seq<Option<seq<int>>>, n: nat, b: seq<Option<seq<int>>>)
    ensures Compact(a + Nones(n) + b) == Compact(a) + Compact(b)
  {
    hide Compact, Nones;
    CompactNone(Nones(n));
    CompactAppend(a + Nones(n), b);
    CompactAppend(a, Nones(n));
    assert Compact(a) + [] == Compact(a);
  }

  lemma CompactThree(cs: seq<Option<seq<int>>>, i: nat, end: nat)
    requires i <= end <= |cs|
    ensures Compact(cs) == Compact(cs[..i]) + Compact(cs[i..end]) + Compact(cs[end..])
  {
    hide Compact;
    CompactAppend(cs[..end], cs[end..]);
    CompactAppend(cs[..i], cs[i..end]);
    assert cs == cs[..end] + cs[end..] && cs[..end] == cs[..i] + cs[i..end];
  }

  /** Removing one clause of a list without gaps removes one line. */
  lemma WithoutOne(movedto: seq<nat>, ds: seq<seq<int>>, maxidx: nat, k: nat)
    requires MovedOk(movedto, maxidx) && (forall k :: 0 <= k < |ds| ==> ClauseOk(ds[k], maxidx)) && k < |ds|
    ensures AllOk(Somes(ds), maxidx) && AllOk(Without(Somes(ds), k, k + 1), maxidx)
    ensures Printed(movedto, Without(Somes(ds), k, k + 1), maxidx) == WithoutLine(Lines(movedto, ds, maxidx), k)
  {
    WithoutSomes(ds, k);
    forall i | 0 <= i < |ds| && Without(Somes(ds), k, k + 1)[i].Some? ensures Without(Somes(ds), k, k + 1)[i] == Some(ds[i]) { }
    assert Lines(movedto, ds[..k] + ds[k + 1..], maxidx) == WithoutLine(Lines(movedto, ds, maxidx), k);
  }

  lemma WithoutSomes(ds: seq<seq<int>>, k: nat)
    requires k < |ds|
    ensures Compact(Without(Somes(ds), k, k + 1)) == ds[..k] + ds[k + 1..]
  {
    hide Compact, Without;
    WithoutCompact(Somes(ds), k, k + 1);
    assert Somes(ds)[..k] == Somes(ds[..k]) && Somes(ds)[k + 1..] == Somes(ds[k + 1..]);
    CompactSomes(ds[..k]);
    CompactSomes(ds[k + 1..]);
  }

  /** Where the literals of a clause go in its line: removing one removes one. */
  lemma {:induction false} OutWithout(movedto: seq<nat>, c: seq<int>, maxidx: nat, j: nat)
    requires MovedOk(movedto, maxidx) && ClauseOk(c, maxidx) && j < |c| && c[j] != FALSE
    ensures ClauseOk(c[j := FALSE], maxidx)
    ensures var p := |Out(movedto, c[..j], maxidx)|; var f := Out(movedto, c, maxidx);
      p < |f| && Out(movedto, c[j := FALSE], maxidx) == f[..p] + f[p + 1..]
  {
    var d := c[..|c| - 1];
    if j < |d| {
      OutWithout(movedto, d, maxidx, j);
      assert c[j := FALSE][..|c| - 1] == d[j := FALSE] && c[..j] == d[..j];
    } else {
      assert c[j := FALSE][..|c| - 1] == d && c[..j] == d;
    }
  }

  /** Every literal of a line comes from a literal of the clause. */
  lemma {:induction false} OutFrom(movedto: seq<nat>, c: seq<int>, maxidx: nat, p: nat) returns (j: nat)
    requires MovedOk(movedto, maxidx) && ClauseOk(c, maxidx) && p < |Out(movedto, c, maxidx)|
    ensures j < |c| && c[j] != FALSE && |Out(movedto, c[..j], maxidx)| == p
  {
    var d := c[..|c| - 1];
    if p < |Out(movedto, d, maxidx)| {
      j := OutFrom(movedto, d, maxidx, p);
      assert c[..j] == d[..j];
    } else {
      j := |c| - 1;
    }
  }

  // ----- the measures -----

  function Live(c: seq<int>): nat {
    if c == [] then 0 else Live(c[..|c| - 1]) + if c[|c| - 1] == FALSE then 0 else 1
  }

  /** The number of literals left. */
  function LitCount(cs: seq<Option<seq<int>>>): nat {
    if cs == [] then 0 else LitCount(cs[..|cs| - 1]) + if cs[|cs| - 1].Some? then Live(cs[|cs| - 1].value) else 0
  }

  lemma {:induction false} LiveLess(c: seq<int>, j: nat)
    requires j < |c| && c[j] != FALSE
    ensures Live(c[j := FALSE]) + 1 == Live(c)
  {
    var d := c[..|c| - 1];
    if j < |d| {
      LiveLess(d, j);
      assert c[j := FALSE][..|c| - 1] == d[j := FALSE];
    } else {
      assert c[j := FALSE][..|c| - 1] == d;
    }
  }

  /** The clauses with one literal removed. */
  function Shrunk(cs: seq<Option<seq<int>>>, k: nat, j: nat): seq<Option<seq<int>>>
    requires k < |cs| && cs[k].Some? && j < |cs[k].value|
  {
    cs[k := Some(cs[k].value[j := FALSE])]
  }

  lemma {:induction false} LitCountLess(cs: seq<Option<seq<int>>>, k: nat, j: nat)
    requires k < |cs| && cs[k].Some? && j < |cs[k].value| && cs[k].value[j] != FALSE
    ensures LitCount(Shrunk(cs, k, j)) + 1 == LitCount(cs)
  {
    var e := cs[..|cs| - 1];
    var d := Shrunk(cs, k, j);
    if k < |e| {
      LitCountLess(e, k, j);
      assert d[..|cs| - 1] == Shrunk(e, k, j);
    } else {
      LiveLess(cs[k].value, j);
      assert d[..|cs| - 1] == e;
    }
  }

  predicate At(cs: seq<Option<seq<int>>>, k: nat, j: nat, v: nat) {
    k < |cs| && cs[k].Some? && j < |cs[k].value| && cs[k].value[j] != FALSE && Abs(cs[k].value[j]) == v
  }

  /** The variable still occurs. */
  ghost predicate Used(cs: seq<Option<seq<int>>>, v: nat) {
    exists k: nat, j: nat :: At(cs, k, j, v)
  }

  /** The largest new index, and the number, of the variables used up to `n`. */
  ghost function UsedMax(cs: seq<Option<seq<int>>>, movedto: seq<nat>, n: nat): nat
    requires n < |movedto|
  {
    if n == 0 then 0 else Max(UsedMax(cs, movedto, n - 1), if Used(cs, n) then movedto[n] else 0)
  }

  ghost function UsedCount(cs: seq<Option<seq<int>>>, n: nat): (c: nat)
    ensures c <= n
  {
    if n == 0 then 0 else UsedCount(cs, n - 1) + if Used(cs, n) then 1 else 0
  }

  /** Different variables in use have different new indices. */
  ghost predicate Apart(cs: seq<Option<seq<int>>>, movedto: seq<nat>) {
    forall u: nat, v: nat :: u < |movedto| && v < |movedto| && Used(cs, u) && Used(cs, v) && movedto[u] == movedto[v] ==> u == v
  }

  ghost function Image(cs: seq<Option<seq<int>>>, movedto: seq<nat>, n: nat): set<nat>
    requires n < |movedto|
  {
    if n == 0 then {} else Image(cs, movedto, n - 1) + if Used(cs, n) then {movedto[n]} else {}
  }

  lemma {:induction false} ImageIs(cs: seq<Option<seq<int>>>, movedto: seq<nat>, n: nat, m: nat)
    requires n < |movedto| && (forall i :: 1 <= i < |movedto| ==> movedto[i] >= 1) && m in Image(cs, movedto, n)
    ensures 1 <= m <= UsedMax(cs, movedto, n) && exists u: nat :: 1 <= u <= n && Used(cs, u) && movedto[u] == m
  {
    hide Used;
    if m in Image(cs, movedto, n - 1) { ImageIs(cs, movedto, n - 1, m); }
  }

  /** The variables in use need at least as many indices. */
  lemma {:induction false} ImageCount(cs: seq<Option<seq<int>>>, movedto: seq<nat>, n: nat)
    requires n < |movedto| && Apart(cs, movedto) && forall i :: 1 <= i < |movedto| ==> movedto[i] >= 1
    ensures |Image(cs, movedto, n)| == UsedCount(cs, n)
  {
    hide Used;
    if n > 0 {
      ImageCount(cs, movedto, n - 1);
      if Used(cs, n) && movedto[n] in Image(cs, movedto, n - 1) { ImageIs(cs, movedto, n - 1, movedto[n]); }
    }
  }

  lemma CountBelowMax(cs: seq<Option<seq<int>>>, movedto: seq<nat>, n: nat)
    requires n < |movedto| && Apart(cs, movedto) && forall i :: 1 <= i < |movedto| ==> movedto[i] >= 1
    ensures UsedCount(cs, n) <= UsedMax(cs, movedto, n)
  {
    ImageCount(cs, movedto, n);
    var top := UsedMax(cs, movedto, n);
    var image := Image(cs, movedto, n);
    forall m | m in image ensures m in Trail.UpTo(top + 1) - {0} { ImageIs(cs, movedto, n, m); }
    Trail.SubsetCount(image, Trail.UpTo(top + 1) - {0});
  }

  lemma {:induction false} CountMonotone(cs: seq<Option<seq<int>>>, u: nat, v: nat)
    requires u <= v
    ensures UsedCount(cs, u) <= UsedCount(cs, v)
    ensures u < v && Used(cs, v) ==> UsedCount(cs, u) < UsedCount(cs, v)
  {
    if u < v { CountMonotone(cs, u, v - 1); }
  }

  /** Renumbered in order, the largest index is the number of variables. */
  lemma {:induction false} RenumberedMax(cs: seq<Option<seq<int>>>, movedto: seq<nat>, n: nat)
    requires n < |movedto| && forall v: nat :: 1 <= v <= n && Used(cs, v) ==> movedto[v] == UsedCount(cs, v)
    ensures UsedMax(cs, movedto, n) == UsedCount(cs, n)
  {
    if n > 0 { RenumberedMax(cs, movedto, n - 1); }
  }

  lemma WithoutOk(cs: seq<Option<seq<int>>>, i: nat, end: nat, maxidx: nat)
    requires i <= end <= |cs| && AllOk(cs, maxidx)
    ensures AllOk(Without(cs, i, end), maxidx)
    ensures forall v: nat :: Used(Without(cs, i, end), v) ==> Used(cs, v)
  {
    var w := Without(cs, i, end);
    forall k: nat | k < |w| && w[k].Some? ensures w[k] == cs[k] { }
    forall v: nat | Used(w, v) ensures Used(cs, v) {
      var k: nat, j: nat :| At(w, k, j, v);
      assert At(cs, k, j, v);
    }
  }

  lemma ShrunkOk(cs: seq<Option<seq<int>>>, k: nat, j: nat, maxidx: nat)
    requires k < |cs| && cs[k].Some? && j < |cs[k].value| && AllOk(cs, maxidx)
    ensures AllOk(Shrunk(cs, k, j), maxidx)
    ensures forall v: nat :: Used(Shrunk(cs, k, j), v) ==> Used(cs, v)
  {
    var w := Shrunk(cs, k, j);
    forall v: nat | Used(w, v) ensures Used(cs, v) {
      var a: nat, b: nat :| At(w, a, b, v);
      assert At(cs, a, b, v);
    }
  }

  lemma {:induction false} CompactUsed(cs: seq<Option<seq<int>>>)
    ensures forall d :: d in Compact(cs) ==> Some(d) in cs
  {
    if cs != [] {
      CompactUsed(cs[..|cs| - 1]);
      assert cs == cs[..|cs| - 1] + [cs[|cs| - 1]];
    }
  }

  predicate Full(cs: seq<Option<seq<int>>>) {
    forall k :: 0 <= k < |cs| ==> cs[k].Some?
  }

  lemma OutNone(movedto: seq<nat>, c: seq<int>, maxidx: nat)
    requires MovedOk(movedto, maxidx)
    ensures ClauseOk(c[..0], maxidx) && Out(movedto, c[..0], maxidx) == [] && MaxIn([]) == 0
  {
  }

  lemma OutNext(movedto: seq<nat>, c: seq<int>, maxidx: nat, j: nat)
    requires MovedOk(movedto, maxidx) && ClauseOk(c, maxidx) && j < |c|
    ensures ClauseOk(c[..j], maxidx) && ClauseOk(c[..j + 1], maxidx) && LitOk(c[j], maxidx)
    ensures Out(movedto, c[..j + 1], maxidx) == Out(movedto, c[..j], maxidx) + if c[j] == FALSE then [] else [Deref(movedto, c[j])]
    ensures Deref(movedto, c[j]) == FALSE <==> c[j] == FALSE
  {
    assert c[..j + 1][..j] == c[..j];
  }

  lemma MaxInNext(o: seq<int>, lit: int)
    ensures MaxIn(o + [lit]) == Max(MaxIn(o), Abs(lit))
  {
    assert (o + [lit])[..|o|] == o;
  }

  /** A name for every variable: its new index while it is in use, and one beyond all indices otherwise. */
  ghost function NewNames(cs: seq<Option<seq<int>>>, movedto: seq<nat>, maxidx: nat): (to: seq<nat>)
    requires |movedto| == maxidx + 1
    ensures |to| == |movedto|
  {
    seq(|movedto|, v requires 0 <= v < |movedto| => if Used(cs, v) then movedto[v] else maxidx + v)
  }

  lemma NamesApart(cs: seq<Option<seq<int>>>, movedto: seq<nat>, maxidx: nat)
    requires MovedOk(movedto, maxidx) && Apart(cs, movedto)
    ensures Injective(NewNames(cs, movedto, maxidx))
  {
    hide Used;
    var to := NewNames(cs, movedto, maxidx);
    forall u: nat, v: nat | 1 <= u < v < |to| ensures to[u] != to[v] {
      assert movedto[u] <= maxidx && movedto[v] <= maxidx;
    }
  }

  lemma InUse(cs: seq<Option<seq<int>>>, k: nat, j: nat)
    requires k < |cs| && cs[k].Some? && j < |cs[k].value| && cs[k].value[j] != FALSE
    ensures Used(cs, Abs(cs[k].value[j]))
  {
    assert At(cs, k, j, Abs(cs[k].value[j]));
  }

  // ----- the debugger -----

  class DeltaDebugger {
    const maxidx: nat
    /** The file that was read, and which of its clauses each clause comes from. */
    ghost const src: File
    ghost var origin: seq<nat>
    /** The exit code of the command on a file. */
    const oracle: Text -> int
    const thorough: bool
    var expected: int
    /** `None` where a clause has been removed. */
    var clauses: seq<Option<seq<int>>>
    var movedto: seq<nat>
    /** The contents of the destination file. */
    var dst: Text
    var changed: bool

    /** Parsing, and the first copy; the expected exit code is computed unless it is given. */
    constructor (src: File, maxidx: nat, oracle: Text -> int, thorough: bool, given: Option<int>)
      requires maxidx < INT_MAX && forall k :: 0 <= k < |src| ==> ClauseOk(src[k], maxidx) && FALSE !in src[k]
      requires given.Some? ==> oracle(TextOf(src)) == given.value
      ensures this.oracle == oracle && this.src == src && Ready() && dst == TextOf(src)
    {
      this.maxidx, this.oracle, this.thorough := maxidx, oracle, thorough;
      this.src, origin := src, seq(|src|, k => k);
      clauses, movedto, changed, dst, expected := Somes(src), seq(maxidx + 1, i => i), false, TextOf(src), if given.Some? then given.value else oracle(TextOf(src));
      new;
      CompactSomes(src);
      Unmoved(movedto, src, maxidx);
    }

    ghost predicate Shaped()
      reads this
    {
      MovedOk(movedto, maxidx) && AllOk(clauses, maxidx) && Apart(clauses, movedto) && OriginOk(src, origin, clauses)
    }

    ghost function Current(): File
      requires Shaped()
      reads this
    {
      Printed(movedto, clauses, maxidx)
    }

    /** What is left is accepted. */
    ghost predicate Accepted()
      reads this
    {
      Shaped() && oracle(TextOf(Current())) == expected
    }

    /** Between the phases the destination file holds what is left, and is accepted. */
    ghost predicate Ready()
      reads this
    {
      Accepted() && Full(clauses) && dst == TextOf(Current())
    }

    method ClauseSatisfied(i: nat) returns (sat: bool)
      requires Shaped() && i < |clauses|
      ensures sat <==> clauses[i].None?
    {
      if clauses[i].None? { return true; }
      var c := clauses[i].value;
      var j := 0;
      while j < |c|
        invariant 0 <= j <= |c|
      {
        assert LitOk(c[j], maxidx);
        if Deref(movedto, c[j]) == TRUE { return true; }
        j := j + 1;
      }
      sat := false;
    }

    /** The line of a clause. */
    method PrintClause(c: seq<int>) returns (line: seq<int>)
      requires MovedOk(movedto, maxidx) && ClauseOk(c, maxidx)
      ensures line == Out(movedto, c, maxidx)
    {
      line := [];
      var j := 0;
      while j < |c|
        invariant 0 <= j <= |c| && line == Out(movedto, c[..j], maxidx)
      {
        assert LitOk(c[j], maxidx);
        assert c[..j + 1][..j] == c[..j];
        var lit := Deref(movedto, c[j]);
        if lit != FALSE { line := line + [lit]; }
        j := j + 1;
      }
      assert c[..j] == c;
    }

    /** The lines: every clause that is left, renumbered, without its removed literals. */
    method PrintLines() returns (file: File)
      requires Shaped()
      ensures file == Current()
    {
      file := [];
      CompactOk(clauses, maxidx);
      var i := 0;
      while i < |clauses|
        invariant 0 <= i <= |clauses| && AllOk(clauses[..i], maxidx)
        invariant file == Printed(movedto, clauses[..i], maxidx)
      {
        assert clauses[..i + 1][..i] == clauses[..i];
        CompactOk(clauses[..i + 1], maxidx);
        var sat := ClauseSatisfied(i);
        if !sat {
          var line := PrintClause(clauses[i].value);
          file := file + [line];
        }
        i := i + 1;
      }
      assert clauses[..i] == clauses;
    }

    /** The first number of the header: the largest index of a line. */
    method KeptVariables() returns (res: nat)
      requires Shaped()
      ensures res == MaxVar(Current())
    {
      res := 0;
      var i := 0;
      CompactOk(clauses, maxidx);
      while i < |clauses|
        invariant 0 <= i <= |clauses| && AllOk(clauses[..i], maxidx)
        invariant res == MaxVar(Printed(movedto, clauses[..i], maxidx))
      {
        assert clauses[..i + 1][..i] == clauses[..i];
        CompactOk(clauses[..i + 1], maxidx);
        var sat := ClauseSatisfied(i);
        if !sat {
          ghost var f, g := Printed(movedto, clauses[..i], maxidx), Printed(movedto, clauses[..i + 1], maxidx);
          assert g[..|g| - 1] == f;
          res := KeptIn(clauses[i].value, res);
        } else {
          assert Compact(clauses[..i + 1]) == Compact(clauses[..i]);
        }
        i := i + 1;
      }
      assert clauses[..i] == clauses;
    }

    /** The second number of the header. */
    method KeptClauses() returns (res: nat)
      requires Shaped()
      ensures res == |Current()|
    {
      res := 0;
      var i := 0;
      while i < |clauses|
        invariant 0 <= i <= |clauses| && res == |Compact(clauses[..i])|
      {
        assert clauses[..i + 1][..i] == clauses[..i];
        var sat := ClauseSatisfied(i);
        if !sat { res := res + 1; }
        i := i + 1;
      }
      assert clauses[..i] == clauses;
    }

    /** The whole file. */
    method Print() returns (text: Text)
      requires Shaped()
      ensures text == TextOf(Current())
    {
      hide Printed;
      var vars := KeptVariables();
      var count := KeptClauses();
      var lines := PrintLines();
      text := Text(vars, count, lines);
    }

    method KeptIn(c: seq<int>, sofar: nat) returns (res: nat)
      requires MovedOk(movedto, maxidx) && ClauseOk(c, maxidx)
      ensures res == Max(sofar, MaxIn(Out(movedto, c, maxidx)))
    {
      hide Out, MaxIn, ClauseOk;
      res := sofar;
      OutNone(movedto, c, maxidx);
      var j := 0;
      while j < |c|
        invariant 0 <= j <= |c| && ClauseOk(c[..j], maxidx) && res == Max(sofar, MaxIn(Out(movedto, c[..j], maxidx)))
      {
        OutNext(movedto, c, maxidx, j);
        ghost var o := Out(movedto, c[..j], maxidx);
        assert o + [] == o;
        var lit := Deref(movedto, c[j]);
        if lit != FALSE {
          MaxInNext(o, lit);
          var idx := Abs(lit);
          if idx > res { res := idx; }
        }
        j := j + 1;
      }
      assert c[..j] == c;
    }

    /** Records what is left: only accepted files are ever saved. */
    method Save()
      requires Accepted()
      modifies this`dst, this`changed
      ensures dst == TextOf(Current()) && changed && oracle(dst) == expected
    {
      dst := Print();
      changed := true;
    }

    // ----- clauses -----

    /** No single clause can be removed. */
    ghost predicate ClausesNeeded()
      requires Shaped()
      reads this
    {
      forall k :: 0 <= k < |clauses| && clauses[k].Some? ==> ClauseNeeded(k)
    }

    ghost predicate ClauseNeeded(k: nat)
      requires Shaped() && k < |clauses|
      reads this
    {
      WithoutOk(clauses, k, k + 1, maxidx);
      oracle(TextOf(Printed(movedto, Without(clauses, k, k + 1), maxidx))) != expected
    }

    /** Tries to do without the clauses of a window. */
    method TryWindow(i: nat, end: nat) returns (removed: nat)
      requires Accepted() && i <= end <= |clauses|
      modifies this`clauses
      ensures Accepted() && |clauses| == |old(clauses)|
      ensures removed > 0 ==> clauses == Without(old(clauses), i, end) && |Compact(clauses)| < |Compact(old(clauses))|
      ensures removed == 0 ==> clauses == old(clauses) && (i + 1 == end && clauses[i].Some? ==> ClauseNeeded(i))
    {
      hide Printed, Compact, OriginOk;
      ghost var was := clauses;
      WithoutOk(was, i, end, maxidx);
      OriginWithout(src, origin, was, i, end);
      var saved := clauses[i..end];
      var found := RemoveWindow(i, end);
      removed := 0;
      if found > 0 {
        var tmp := Print();
        if oracle(tmp) == expected {
          removed := found;
          FewerLeft(was, i, end);
        } else {
          clauses := clauses[..i] + saved + clauses[end..];
          assert clauses == was;
        }
      } else {
        assert clauses == was;
      }
    }

    method RemoveWindow(i: nat, end: nat) returns (found: nat)
      requires i <= end <= |clauses|
      modifies this`clauses
      ensures clauses == Without(old(clauses), i, end)
      ensures found > 0 <==> exists k :: i <= k < end && old(clauses)[k].Some?
      ensures found == 0 ==> clauses == old(clauses)
    {
      found := 0;
      var j := i;
      while j < end
        invariant i <= j <= end && |clauses| == |old(clauses)|
        invariant forall k :: 0 <= k < |clauses| ==> clauses[k] == if i <= k < j then None else old(clauses)[k]
        invariant found > 0 <==> exists k :: i <= k < j && old(clauses)[k].Some?
      {
        if clauses[j].Some? {
          found := found + 1;
          clauses := clauses[j := None];
        }
        j := j + 1;
      }
    }

    /** One sweep of windows; when it removes nothing, each window was tried on the clauses as they still are. */
    method Sweep(width: nat) returns (removed: nat)
      requires Accepted() && width > 0
      modifies this`clauses
      ensures Accepted() && |clauses| == |old(clauses)|
      ensures removed > 0 ==> |Compact(clauses)| < |Compact(old(clauses))|
      ensures removed == 0 ==> clauses == old(clauses) && (width == 1 ==> ClausesNeeded())
    {
      hide Compact, Printed, AllOk, MovedOk, Without;
      removed := 0;
      var i, more := 0, true;
      while more
        invariant 0 <= i <= |clauses| == |old(clauses)| && (more <== i < |clauses|) && Accepted()
        invariant removed > 0 ==> |Compact(clauses)| < |Compact(old(clauses))|
        invariant removed == 0 ==> clauses == old(clauses)
        invariant removed == 0 && width == 1 ==> forall k :: 0 <= k < i && clauses[k].Some? ==> ClauseNeeded(k)
        decreases |clauses| - i, more
      {
        var end := if i + width > |clauses| then |clauses| else i + width;
        var n := TryWindow(i, end);
        removed := removed + n;
        i := end;
        more := i < |clauses|;
      }
    }

    /** The clauses that are left, moved to the front. */
    method MoveUp() returns (cs: seq<Option<seq<int>>>)
      ensures cs == Somes(Compact(clauses))
    {
      cs := clauses;
      var i, j := 0, 0;
      while i < |cs|
        invariant 0 <= j <= i <= |cs| == |clauses| && cs[i..] == clauses[i..]
        invariant cs[..j] == Somes(Compact(clauses[..i]))
      {
        assert clauses[..i + 1][..i] == clauses[..i];
        assert cs[i] == cs[i..][0] == clauses[i..][0] == clauses[i];
        ghost var ds := Compact(clauses[..i]);
        if cs[i].Some? {
          cs := cs[j := cs[i]];
          j := j + 1;
          assert Compact(clauses[..i + 1]) == ds + [clauses[i].value];
          assert cs[..j] == Somes(ds + [clauses[i].value]);
        }
        assert cs[i + 1..] == clauses[i..][1..];
        i := i + 1;
      }
      assert clauses[..i] == clauses;
      cs := cs[..j];
    }

    /** Closes the gaps; nothing printed changes. */
    method CloseGaps()
      requires Shaped()
      modifies this`clauses, this`origin
      ensures clauses == Somes(Compact(old(clauses))) && Shaped() && Full(clauses) && Current() == old(Current())
    {
      hide Compact, Used, Trimmed;
      var cs := MoveUp();
      CompactOk(clauses, maxidx);
      CompactSomes(Compact(clauses));
      GapsUsed(clauses);
      OriginCompact(src, origin, clauses);
      origin := OriginLeft(clauses, origin);
      clauses := cs;
    }

    /** Removes clauses, in ever smaller windows: afterwards there are fewer, or none can be removed. */
    method Reduce()
      requires Ready()
      modifies this`clauses, this`origin, this`dst, this`changed
      ensures Ready() && movedto == old(movedto) && expected == old(expected)
      ensures (clauses == old(clauses) && changed == old(changed) && ClausesNeeded()) || (changed && |clauses| < |old(clauses)|)
    {
      hide Compact, Printed, AllOk, MovedOk, Without;
      var width: nat, total: nat := |clauses|, 0;
      while width > 0
        invariant Ready()
        invariant total == 0 ==> clauses == old(clauses) && changed == old(changed) && (width == 0 ==> ClausesNeeded())
        invariant total > 0 ==> changed && |clauses| < |old(clauses)|
        decreases |clauses|, width
      {
        FullCompact(clauses);
        var removed := Sweep(width);
        if removed > 0 { Save(); }
        total := total + removed;
        if removed > 0 && thorough {
          width := |clauses|;
        } else if width > 1 {
          width := (width + 1) / 2;
        } else {
          width := 0;
        }
        CloseGaps();
      }
    }

    // ----- literals -----

    ghost predicate LiteralNeeded(k: nat, j: nat)
      requires Shaped() && k < |clauses| && clauses[k].Some? && j < |clauses[k].value|
      reads this
    {
      ShrunkOk(clauses, k, j, maxidx);
      oracle(TextOf(Printed(movedto, Shrunk(clauses, k, j), maxidx))) != expected
    }

    /** No literal of the first `n` clauses can be removed. */
    ghost predicate LiteralsNeeded(n: nat)
      requires Shaped() && n <= |clauses|
      reads this
    {
      forall k: nat, j: nat :: k < n && clauses[k].Some? && j < |clauses[k].value| && clauses[k].value[j] != FALSE ==> LiteralNeeded(k, j)
    }

    /** Tries to do without a literal. */
    method TryLiteral(k: nat, j: nat) returns (removed: bool)
      requires Accepted() && k < |clauses| && clauses[k].Some? && j < |clauses[k].value| && clauses[k].value[j] != FALSE
      modifies this`clauses
      ensures Accepted()
      ensures removed ==> clauses == Shrunk(old(clauses), k, j) && LitCount(clauses) < LitCount(old(clauses))
      ensures !removed ==> clauses == old(clauses) && LiteralNeeded(k, j)
    {
      hide Printed, LitCount, OriginOk;
      ghost var was := clauses;
      ShrunkOk(was, k, j, maxidx);
      OriginShrunk(src, origin, was, k, j);
      LitCountLess(was, k, j);
      var lit := clauses[k].value[j];
      clauses := clauses[k := Some(clauses[k].value[j := FALSE])];
      var tmp := Print();
      removed := oracle(tmp) == expected;
      if !removed {
        assert was[k].value[j := FALSE][j := lit] == was[k].value;
        clauses := clauses[k := Some(clauses[k].value[j := lit])];
        assert clauses == was;
      }
    }

    method ShrinkClause(i: nat) returns (removed: nat)
      requires Accepted() && Full(clauses) && i < |clauses|
      modifies this`clauses
      ensures Accepted() && Full(clauses) && |clauses| == |old(clauses)|
      ensures removed > 0 ==> LitCount(clauses) < LitCount(old(clauses))
      ensures removed == 0 ==> clauses == old(clauses)
      ensures removed == 0 ==> forall j: nat :: j < |clauses[i].value| && clauses[i].value[j] != FALSE ==> LiteralNeeded(i, j)
    {
      hide LitCount, Printed, AllOk, MovedOk;
      removed := 0;
      var j := 0;
      while j < |clauses[i].value|
        invariant Accepted() && Full(clauses) && |clauses| == |old(clauses)| && j <= |clauses[i].value| == |old(clauses)[i].value|
        invariant removed > 0 ==> LitCount(clauses) < LitCount(old(clauses))
        invariant removed == 0 ==> clauses == old(clauses)
        invariant removed == 0 ==> forall l: nat :: l < j && clauses[i].value[l] != FALSE ==> LiteralNeeded(i, l)
      {
        if clauses[i].value[j] != FALSE {
          var gone := TryLiteral(i, j);
          if gone { removed := removed + 1; }
        }
        j := j + 1;
      }
    }

    /** Removes literals one by one: afterwards there are fewer, or none can be removed. */
    method Shrink()
      requires Ready()
      modifies this`clauses, this`dst, this`changed
      ensures Ready() && movedto == old(movedto) && |clauses| == |old(clauses)|
      ensures (clauses == old(clauses) && changed == old(changed) && LiteralsNeeded(|clauses|)) || (changed && LitCount(clauses) < LitCount(old(clauses)))
    {
      hide LitCount, Printed, AllOk, MovedOk;
      var removed: nat, i := 0, 0;
      while i < |clauses|
        modifies this`clauses
        invariant 0 <= i <= |clauses| == |old(clauses)| && Accepted() && Full(clauses)
        invariant removed > 0 ==> LitCount(clauses) < LitCount(old(clauses))
        invariant removed == 0 ==> clauses == old(clauses) && LiteralsNeeded(i)
      {
        if clauses[i].Some? {
          var n := ShrinkClause(i);
          removed := removed + n;
        }
        i := i + 1;
      }
      if removed > 0 { Save(); }
    }

    // ----- variables -----

    method MarkClause(k: nat, used: seq<bool>) returns (r: seq<bool>)
      requires Shaped() && k < |clauses| && clauses[k].Some? && |used| == maxidx + 1
      ensures |r| == |used|
      ensures forall v :: 1 <= v <= maxidx ==> (r[v] <==> used[v] || exists j: nat :: At(clauses, k, j, v))
    {
      var c := clauses[k].value;
      r := used;
      var j := 0;
      while j < |c|
        invariant 0 <= j <= |c| && |r| == |used|
        invariant forall v :: 1 <= v <= maxidx ==> (r[v] <==> used[v] || exists i: nat :: i < j && At(clauses, k, i, v))
      {
        assert LitOk(c[j], maxidx);
        var idx := Abs(c[j]);
        if idx != INT_MAX {
          assert At(clauses, k, j, idx);
          r := r[idx := true];
        }
        j := j + 1;
      }
    }

    method MarkUsed() returns (used: seq<bool>)
      requires Shaped()
      ensures |used| == maxidx + 1 && forall v: nat :: 1 <= v <= maxidx ==> (used[v] <==> Used(clauses, v))
    {
      hide AllOk, MovedOk, Apart;
      used := seq(maxidx + 1, v => false);
      var i := 0;
      while i < |clauses|
        invariant 0 <= i <= |clauses| && |used| == maxidx + 1
        invariant forall v :: 1 <= v <= maxidx ==> (used[v] <==> exists k: nat, j: nat :: k < i && At(clauses, k, j, v))
      {
        if clauses[i].Some? { used := MarkClause(i, used); }
        i := i + 1;
      }
    }

    /** The largest new index, and the number, of the variables in use. */
    method Survey(used: seq<bool>) returns (top: nat, count: nat)
      requires Shaped() && |used| == maxidx + 1 && forall v: nat :: 1 <= v <= maxidx ==> (used[v] <==> Used(clauses, v))
      ensures top == UsedMax(clauses, movedto, maxidx) && count == UsedCount(clauses, maxidx)
    {
      hide AllOk, Apart, Used;
      top, count := 0, 0;
      var i := 1;
      while i <= maxidx
        invariant 1 <= i <= maxidx + 1
        invariant top == UsedMax(clauses, movedto, i - 1) && count == UsedCount(clauses, i - 1)
      {
        if used[i] {
          if movedto[i] > top { top := movedto[i]; }
          count := count + 1;
        }
        i := i + 1;
      }
    }

    method Renumber(used: seq<bool>)
      requires Shaped() && |used| == maxidx + 1 && forall v: nat :: 1 <= v <= maxidx ==> (used[v] <==> Used(clauses, v))
      modifies this`movedto
      ensures movedto == Renumbered(clauses, old(movedto))
    {
      hide AllOk, Apart, Used, UsedCount;
      CountZero(clauses);
      var i, j := 1, 0;
      while i <= maxidx
        invariant 1 <= i <= maxidx + 1 && |movedto| == |old(movedto)| == maxidx + 1 && j == UsedCount(clauses, i - 1)
        invariant forall v: nat :: v <= maxidx ==>
          movedto[v] == if 1 <= v < i && Used(clauses, v) then UsedCount(clauses, v) else old(movedto)[v]
      {
        CountNext(clauses, i);
        if used[i] {
          j := j + 1;
          movedto := movedto[i := j];
        }
        i := i + 1;
      }
    }

    /** Numbering without gaps is already there, or not accepted. */
    ghost predicate NumbersNeeded()
      requires Shaped()
      reads this
    {
      RenumberedOk(clauses, movedto, maxidx);
      UsedMax(clauses, movedto, maxidx) == UsedCount(clauses, maxidx)
      || oracle(TextOf(Printed(Renumbered(clauses, movedto), clauses, maxidx))) != expected
    }

    /** Renumbers the variables without gaps: afterwards the largest index is smaller, or it cannot be done. */
    method Move()
      requires Ready()
      modifies this`movedto, this`dst, this`changed
      ensures Ready()
      ensures (movedto == old(movedto) && changed == old(changed) && NumbersNeeded())
              || (changed && UsedMax(clauses, movedto, maxidx) < UsedMax(clauses, old(movedto), maxidx))
    {
      hide AllOk, Used, UsedCount, UsedMax, Printed, Renumbered;
      var used := MarkUsed();
      var top, count := Survey(used);
      CountBelowMax(clauses, movedto, maxidx);
      RenumberedOk(clauses, movedto, maxidx);
      if count == 0 { NoneUsed(clauses, movedto, maxidx); }
      var moved := top - count;
      if count != 0 && moved != 0 {
        var saved := movedto;
        Renumber(used);
        var tmp := Print();
        if oracle(tmp) != expected {
          moved := 0;
          movedto := saved;
        } else {
          assert oracle(dst) == expected;
        }
      }
      if moved != 0 { Save(); }
    }

    /** One round; when it changes nothing, nothing can be deleted or renumbered any more. */
    method Round()
      requires Ready() && !changed
      modifies this`clauses, this`origin, this`movedto, this`dst, this`changed
      ensures Ready()
      ensures !changed ==> clauses == old(clauses) && movedto == old(movedto) && ClausesNeeded() && LiteralsNeeded(|clauses|) && NumbersNeeded()
      ensures changed ==> Smaller(clauses, movedto, old(clauses), old(movedto), maxidx)
    {
      hide AllOk, Used, UsedCount, UsedMax, LitCount, Printed, Renumbered, Compact, Shaped, Full, Without, Shrunk;
      ghost var c0, m0 := clauses, movedto;
      MovedSize();
      Reduce();
      ghost var c1 := clauses;
      MovedSize();
      Move();
      ghost var m1 := movedto;
      MovedSize();
      Shrink();
      ghost var c2 := clauses;
      Move();
      MovedSize();
    }

    lemma MovedSize()
      requires Shaped()
      ensures |movedto| == maxidx + 1
    {
    }

    /** Rounds until nothing changes. The result is accepted, and 1-minimal: without any one clause or literal it is not. */
    method Debug()
      requires Ready()
      modifies this`clauses, this`origin, this`movedto, this`dst, this`changed
      ensures Ready() && oracle(dst) == expected && NumbersNeeded() && Renamed(src, dst.lines)
      ensures forall k :: 0 <= k < |dst.lines| ==> oracle(TextOf(WithoutLine(dst.lines, k))) != expected
      ensures forall k, j :: 0 <= k < |dst.lines| && 0 <= j < |dst.lines[k]| ==> oracle(TextOf(WithoutLiteral(dst.lines, k, j))) != expected
    {
      hide AllOk, Used, UsedCount, UsedMax, LitCount, Compact, Full, Without, Shrunk;
      changed := true;
      while changed
        invariant Ready()
        invariant !changed ==> ClausesNeeded() && LiteralsNeeded(|clauses|) && NumbersNeeded()
        decreases |clauses|, LitCount(clauses), TopIndex(clauses, movedto, maxidx), changed
      {
        changed := false;
        Round();
      }
      Minimal();
      SavedRenamed();
    }

    /** A saved file is a part of the source with its variables renamed. */
    lemma SavedRenamed()
      requires Ready()
      ensures Renamed(src, dst.lines)
    {
      hide Used;
      FullCompact(clauses);
      CompactOk(clauses, maxidx);
      var ds := Compact(clauses);
      var to := NewNames(clauses, movedto, maxidx);
      NamesApart(clauses, movedto, maxidx);
      forall k | 0 <= k < |dst.lines| ensures Picked(dst.lines[k], src[origin[k]], to) {
        assert clauses[k] == Somes(ds)[k];
        forall j: nat | j < |ds[k]| && ds[k][j] != FALSE ensures to[Abs(ds[k][j])] == movedto[Abs(ds[k][j])] {
          assert LitOk(ds[k][j], maxidx);
          InUse(clauses, k, j);
        }
        var keep := OutPicked(movedto, ds[k], maxidx, src[origin[k]], to);
      }
      assert RenamedBy(src, dst.lines, to, origin);
    }

    /** What is needed among the clauses is needed in the file. */
    lemma Minimal()
      requires Ready() && ClausesNeeded() && LiteralsNeeded(|clauses|)
      ensures forall k :: 0 <= k < |dst.lines| ==> oracle(TextOf(WithoutLine(dst.lines, k))) != expected
      ensures forall k, j :: 0 <= k < |dst.lines| && 0 <= j < |dst.lines[k]| ==> oracle(TextOf(WithoutLiteral(dst.lines, k, j))) != expected
    {
      FullCompact(clauses);
      var ds := Compact(clauses);
      CompactOk(clauses, maxidx);
      forall k | 0 <= k < |dst.lines| ensures oracle(TextOf(WithoutLine(dst.lines, k))) != expected {
        assert ClauseNeeded(k);
        WithoutOne(movedto, ds, maxidx, k);
      }
      forall k, j | 0 <= k < |dst.lines| && 0 <= j < |dst.lines[k]| ensures oracle(TextOf(WithoutLiteral(dst.lines, k, j))) != expected {
        var i := OutFrom(movedto, ds[k], maxidx, j);
        assert LiteralNeeded(k, i);
        ShrunkLine(movedto, ds, maxidx, k, i);
      }
    }
  }

  /** The largest index, or nothing for a table that does not fit. */
  ghost function TopIndex(cs: seq<Option<seq<int>>>, movedto: seq<nat>, maxidx: nat): nat {
    if maxidx < |movedto| then UsedMax(cs, movedto, maxidx) else 0
  }

  /** Fewer clauses, or as many with fewer literals, or as many of both with a smaller index. */
  ghost predicate Smaller(cs: seq<Option<seq<int>>>, movedto: seq<nat>, cs0: seq<Option<seq<int>>>, movedto0: seq<nat>, maxidx: nat) {
    || |cs| < |cs0|
    || (|cs| == |cs0| && LitCount(cs) < LitCount(cs0))
    || (|cs| == |cs0| && LitCount(cs) == LitCount(cs0) && TopIndex(cs, movedto, maxidx) < TopIndex(cs0, movedto0, maxidx))
  }

  /** Removing one literal of a clause removes one of its line. */
  lemma ShrunkLine(movedto: seq<nat>, ds: seq<seq<int>>, maxidx: nat, k: nat, i: nat)
    requires MovedOk(movedto, maxidx) && (forall k :: 0 <= k < |ds| ==> ClauseOk(ds[k], maxidx))
    requires k < |ds| && i < |ds[k]| && ds[k][i] != FALSE
    ensures AllOk(Somes(ds), maxidx) && AllOk(Shrunk(Somes(ds), k, i), maxidx)
    ensures var p := |Out(movedto, ds[k][..i], maxidx)|; var f := Lines(movedto, ds, maxidx);
      p < |f[k]| && Printed(movedto, Shrunk(Somes(ds), k, i), maxidx) == WithoutLiteral(f, k, p)
  {
    OutWithout(movedto, ds[k], maxidx, i);
    var e := ds[k := ds[k][i := FALSE]];
    assert Shrunk(Somes(ds), k, i) == Somes(e);
    CompactSomes(e);
    var p := |Out(movedto, ds[k][..i], maxidx)|;
    assert Lines(movedto, e, maxidx) == WithoutLiteral(Lines(movedto, ds, maxidx), k, p);
  }

  /** The variables in use numbered in order. */
  ghost function Renumbered(cs: seq<Option<seq<int>>>, movedto: seq<nat>): (m: seq<nat>)
    ensures |m| == |movedto|
  {
    seq(|movedto|, v requires 0 <= v < |movedto| => if v >= 1 && Used(cs, v) then UsedCount(cs, v) else movedto[v])
  }

  lemma CountZero(cs: seq<Option<seq<int>>>)
    ensures UsedCount(cs, 0) == 0
  {
  }

  lemma CountNext(cs: seq<Option<seq<int>>>, i: nat)
    requires i >= 1
    ensures UsedCount(cs, i) == UsedCount(cs, i - 1) + if Used(cs, i) then 1 else 0
  {
  }

  lemma {:induction false} NoneUsed(cs: seq<Option<seq<int>>>, movedto: seq<nat>, n: nat)
    requires n < |movedto| && UsedCount(cs, n) == 0
    ensures UsedMax(cs, movedto, n) == 0
  {
    if n > 0 { NoneUsed(cs, movedto, n - 1); }
  }

  /** Renumbering gives different variables different indices, the largest being their number. */
  lemma RenumberedOk(cs: seq<Option<seq<int>>>, movedto: seq<nat>, maxidx: nat)
    requires MovedOk(movedto, maxidx) && AllOk(cs, maxidx)
    ensures var m := Renumbered(cs, movedto);
      MovedOk(m, maxidx) && Apart(cs, m) && UsedMax(cs, m, maxidx) == UsedCount(cs, maxidx)
  {
    var m := Renumbered(cs, movedto);
    forall v: nat | 1 <= v <= maxidx ensures 1 <= m[v] <= maxidx {
      if Used(cs, v) { CountMonotone(cs, v - 1, v); }
    }
    forall u: nat, v: nat | u < |m| && v < |m| && Used(cs, u) && Used(cs, v) && m[u] == m[v] ensures u == v {
      NotZero(cs, maxidx);
      if u < v { CountMonotone(cs, u, v); }
      if v < u { CountMonotone(cs, v, u); }
    }
    RenumberedMax(cs, m, maxidx);
  }

  lemma NotZero(cs: seq<Option<seq<int>>>, maxidx: nat)
    requires AllOk(cs, maxidx)
    ensures !Used(cs, 0)
  {
    forall k: nat, j: nat ensures !At(cs, k, j, 0) {
      if k < |cs| && cs[k].Some? && j < |cs[k].value| { assert LitOk(cs[k].value[j], maxidx); }
    }
  }

  lemma {:induction false} FullCompact(cs: seq<Option<seq<int>>>)
    requires Full(cs)
    ensures |Compact(cs)| == |cs| && Somes(Compact(cs)) == cs
  {
    if cs != [] { FullCompact(cs[..|cs| - 1]); }
  }

  lemma GapsUsed(cs: seq<Option<seq<int>>>)
    ensures forall v: nat :: Used(Somes(Compact(cs)), v) ==> Used(cs, v)
  {
    var s := Somes(Compact(cs));
    CompactUsed(cs);
    forall v: nat | Used(s, v) ensures Used(cs, v) {
      var k: nat, j: nat :| At(s, k, j, v);
      assert Compact(cs)[k] in Compact(cs);
      var i :| 0 <= i < |cs| && cs[i] == Some(Compact(cs)[k]);
      assert At(cs, i, j, v);
    }
  }

  lemma FewerLeft(cs: seq<Option<seq<int>>>, i: nat, end: nat)
    requires i <= end <= |cs| && exists k :: i <= k < end && cs[k].Some?
    ensures |Compact(Without(cs, i, end))| < |Compact(cs)|
  {
    hide Compact;
    WithoutCompact(cs, i, end);
    var k :| i <= k < end && cs[k].Some?;
    CompactSome(cs[i..end], k - i);
  }

  /** Before any renumbering a file is printed as it was read. */
  lemma Unmoved(movedto: seq<nat>, ds: seq<seq<int>>, maxidx: nat)
    requires MovedOk(movedto, maxidx) && forall i :: 0 <= i <= maxidx ==> movedto[i] == i
    requires forall k :: 0 <= k < |ds| ==> ClauseOk(ds[k], maxidx) && FALSE !in ds[k]
    ensures Lines(movedto, ds, maxidx) == ds
  {
    forall k | 0 <= k < |ds| ensures Out(movedto, ds[k], maxidx) == ds[k] { UnmovedClause(movedto, ds[k], maxidx); }
  }

  lemma {:induction false} UnmovedClause(movedto: seq<nat>, c: seq<int>, maxidx: nat)
    requires MovedOk(movedto, maxidx) && (forall i :: 0 <= i <= maxidx ==> movedto[i] == i) && ClauseOk(c, maxidx) && FALSE !in c
    ensures Out(movedto, c, maxidx) == c
  {
    if c != [] {
      UnmovedClause(movedto, c[..|c| - 1], maxidx);
      assert LitOk(c[|c| - 1], maxidx) && c[|c| - 1] in c;
    }
  }
}
