/** The range list of a cached object and the operations utils.cpp performs on it.

    A cached object keeps the bytes `a..b` of the origin at disk offset `position`.
    Two readings of a list matter everywhere below: which origin bytes it knows and
    where (`Holds`), and how its blocks lie on disk (`Layout`). */
module Intervals {

  datatype Interval = Interval(a: int, b: int, position: int) {
    function Size(): int { b - a + 1 }

    function End(): int { position + Size() }
  }

  // ----- what a list says about the origin

  /** Origin byte `k` is stored at disk offset `q`. */
  ghost predicate Holds(l: seq<Interval>, k: int, q: int) {
    exists iv :: iv in l && iv.a <= k <= iv.b && q == iv.position + k - iv.a
  }

  ghost predicate Covered(l: seq<Interval>, k: int) {
    exists iv :: iv in l && iv.a <= k <= iv.b
  }

  /** `m` knows at least what `l` knows. */
  ghost predicate Extends(l: seq<Interval>, m: seq<Interval>) {
    forall k, q :: Holds(l, k, q) ==> Holds(m, k, q)
  }

  /** Every byte the list names is on disk and equal to the origin's. */
  ghost predicate Coherent(l: seq<Interval>, data: string, origin: int -> char) {
    forall k, q :: Holds(l, k, q) ==> 0 <= q < |data| && data[q] == origin(k)
  }

  // ----- shape of a list

  ghost predicate WellFormed(l: seq<Interval>) {
    forall iv :: iv in l ==> 0 <= iv.a <= iv.b && 0 <= iv.position
  }

  ghost predicate Apart(x: Interval, y: Interval) {
    x.b < y.a || y.b < x.a
  }

  ghost predicate DiskApart(x: Interval, y: Interval) {
    x.End() <= y.position || y.End() <= x.position
  }

  ghost predicate OriginDisjoint(l: seq<Interval>) {
    forall i, j :: 0 <= i < j < |l| ==> Apart(l[i], l[j])
  }

  ghost predicate DiskDisjoint(l: seq<Interval>) {
    forall i, j :: 0 <= i < j < |l| ==> DiskApart(l[i], l[j])
  }

  lemma ApartAt(l: seq<Interval>, i: nat, j: nat)
    requires OriginDisjoint(l) && i < |l| && j < |l|
    ensures i == j || Apart(l[i], l[j])
  {
  }

  /** Disk offset `q` belongs to some block. */
  ghost predicate OnDisk(l: seq<Interval>, q: int) {
    exists iv :: iv in l && iv.position <= q < iv.End()
  }

  /** The blocks tile `[0, PointEnd)` without gap or overlap and their origin ranges
      are pairwise disjoint. */
  ghost predicate Layout(l: seq<Interval>) {
    && WellFormed(l)
    && OriginDisjoint(l)
    && DiskDisjoint(l)
    && forall q :: 0 <= q < PointEnd(l) ==> OnDisk(l, q)
  }

  // ----- the operations

  /** Index of the first entry with the greatest position. */
  function LastNode(l: seq<Interval>): (k: nat)
    requires l != []
    ensures k < |l|
    ensures forall j :: 0 <= j < |l| ==> l[j].position <= l[k].position
    ensures forall j :: 0 <= j < k ==> l[j].position < l[k].position
  {
    if |l| == 1 then 0
    else
      var k := LastNode(l[..|l| - 1]);
      assert forall j :: 0 <= j < |l| - 1 ==> l[j] == l[..|l| - 1][j];
      if l[|l| - 1].position > l[k].position then |l| - 1 else k
  }

  method GetLastNode(l: seq<Interval>) returns (k: nat)
    requires l != []
    ensures k < |l|
    ensures forall j :: 0 <= j < |l| ==> l[j].position <= l[k].position
    ensures forall j :: 0 <= j < k ==> l[j].position < l[k].position
  {
    var maxPosition := l[0].position;
    k := 0;
    var i := 0;
    while i < |l|
      invariant 0 <= i <= |l| && 0 <= k < |l| && maxPosition == l[k].position
      invariant forall j :: 0 <= j < i ==> l[j].position <= maxPosition
      invariant forall j :: 0 <= j < k ==> l[j].position < maxPosition
    {
      if l[i].position > maxPosition {
        maxPosition := l[i].position;
        k := i;
      }
      i := i + 1;
    }
  }

  lemma LastNodeUnique(l: seq<Interval>, k: nat)
    requires k < |l|
    requires forall j :: 0 <= j < |l| ==> l[j].position <= l[k].position
    requires forall j :: 0 <= j < k ==> l[j].position < l[k].position
    ensures k == LastNode(l)
  {
  }

  /** First free disk offset. */
  function PointEnd(l: seq<Interval>): int {
    if l == [] then 0 else l[LastNode(l)].End()
  }

  method GetPointEnd(l: seq<Interval>) returns (e: int)
    ensures e == PointEnd(l)
  {
    if l == [] {
      return 0;
    }
    var k := GetLastNode(l);
    LastNodeUnique(l, k);
    e := l[k].position + l[k].b - l[k].a + 1;
  }

  function FileSize(l: seq<Interval>): int {
    if l == [] then 0 else FileSize(l[..|l| - 1]) + l[|l| - 1].Size()
  }

  method GetFileSize(l: seq<Interval>) returns (n: int)
    ensures n == FileSize(l)
  {
    n := 0;
    var i := 0;
    while i < |l|
      invariant 0 <= i <= |l| && n == FileSize(l[..i])
    {
      assert l[..i + 1][..i] == l[..i];
      n := n + (l[i].b - l[i].a + 1);
      i := i + 1;
    }
    assert l[..i] == l;
  }

  /** Greatest origin byte named by the list, -1 for none. */
  ghost predicate IsExtreme(l: seq<Interval>, e: int) {
    && -1 <= e
    && (forall iv :: iv in l ==> iv.b <= e)
    && (e == -1 || exists iv :: iv in l && iv.b == e)
  }

  method GetExtremeB(l: seq<Interval>) returns (e: int)
    ensures IsExtreme(l, e)
  {
    e := -1;
    var i := 0;
    while i < |l|
      invariant 0 <= i <= |l| && -1 <= e
      invariant forall j :: 0 <= j < i ==> l[j].b <= e
      invariant e == -1 || exists j :: 0 <= j < i && l[j].b == e
    {
      if l[i].b > e {
        e := l[i].b;
      }
      i := i + 1;
    }
    if e != -1 {
      var j :| 0 <= j < |l| && l[j].b == e;
      assert l[j] in l;
    }
  }

  /** The list after a block is appended: the block extends the last entry on disk when
      it continues it in the origin too, otherwise it is put right behind it. */
  function Appended(l: seq<Interval>, n: Interval): seq<Interval> {
    if l == [] then [n]
    else
      var k := LastNode(l);
      if l[k].b + 1 == n.a then l[k := l[k].(b := n.b)]
      else l[..k + 1] + [n] + l[k + 1..]
  }

  method AppendNode(l: seq<Interval>, n: Interval) returns (r: seq<Interval>)
    ensures r == Appended(l, n)
  {
    if l == [] {
      return [n];
    }
    var k := GetLastNode(l);
    LastNodeUnique(l, k);
    if l[k].b + 1 == n.a {
      return l[k := l[k].(b := n.b)];
    }
    r := l[..k + 1] + [n] + l[k + 1..];
  }

  /** The part of block `n` that a checkpoint of `length` bytes records. */
  function Head(n: Interval, length: int): Interval {
    n.(b := length + n.a - 1)
  }

  /** What is left of block `n` after a checkpoint of `length` bytes. */
  function Rest(n: Interval, length: int): Interval {
    Interval(n.a + length, n.b, n.position + length)
  }

  method AppendSubNode(l: seq<Interval>, n: Interval, length: int) returns (r: seq<Interval>)
    ensures r == Appended(l, Head(n, length))
  {
    var m := n;
    if l == [] {
      m := m.(b := length + m.a - 1);
      return [m];
    }
    var k := GetLastNode(l);
    LastNodeUnique(l, k);
    if l[k].b + 1 == m.a {
      return l[k := l[k].(b := length + m.a - 1)];
    }
    m := m.(b := length + m.a - 1);
    r := l[..k + 1] + [m] + l[k + 1..];
  }

  // ----- properties of the layout

  lemma BlocksEndBelow(l: seq<Interval>)
    requires WellFormed(l) && DiskDisjoint(l)
    ensures forall iv :: iv in l ==> iv.End() <= PointEnd(l)
    ensures 0 <= PointEnd(l)
  {
    if l != [] {
      var k := LastNode(l);
      assert l[k] in l;
      forall iv | iv in l ensures iv.End() <= PointEnd(l) {
        var i :| 0 <= i < |l| && l[i] == iv;
      }
    }
  }

  lemma LastOfUpdated(l: seq<Interval>, b: int)
    requires l != []
    ensures LastNode(l[LastNode(l) := l[LastNode(l)].(b := b)]) == LastNode(l)
  {
    var k := LastNode(l);
    LastNodeUnique(l[k := l[k].(b := b)], k);
  }

  lemma LastOfInserted(l: seq<Interval>, n: Interval)
    requires l != [] && l[LastNode(l)].position < n.position
    ensures LastNode(l[..LastNode(l) + 1] + [n] + l[LastNode(l) + 1..]) == LastNode(l) + 1
  {
    var k := LastNode(l);
    var m := l[..k + 1] + [n] + l[k + 1..];
    assert m[k + 1] == n;
    forall j | 0 <= j < |m|
      ensures m[j].position <= n.position && (j < k + 1 ==> m[j].position < n.position)
    {
      if j <= k { assert m[j] == l[j]; }
      else if j > k + 1 { assert m[j] == l[j - 1]; }
    }
    LastNodeUnique(m, k + 1);
  }

  /** A block placed at the end of the file adds exactly its own bytes to the index,
      whether it becomes an entry of its own or extends the last one. */
  lemma AppendedHolds(l: seq<Interval>, n: Interval)
    requires WellFormed(l) && n.a <= n.b && n.position == PointEnd(l)
    ensures forall k, q ::
              Holds(Appended(l, n), k, q) <==>
              Holds(l, k, q) || (n.a <= k <= n.b && q == n.position + k - n.a)
  {
    var m := Appended(l, n);
    if l == [] {
      assert forall k, q :: !Holds(l, k, q);
      assert n in m;
    } else if l[LastNode(l)].b + 1 == n.a {
      AppendedHoldsMerge(l, n);
    } else {
      assert forall iv :: iv in m <==> iv in l || iv == n;
    }
  }

  lemma AppendedHoldsMerge(l: seq<Interval>, n: Interval)
    requires WellFormed(l) && l != [] && n.position == PointEnd(l) && n.a <= n.b
    requires l[LastNode(l)].b + 1 == n.a
    ensures forall k, q ::
              Holds(Appended(l, n), k, q) <==>
              Holds(l, k, q) || (n.a <= k <= n.b && q == n.position + k - n.a)
  {
    var i := LastNode(l);
    var m := Appended(l, n);
    assert m[i] in m && l[i] in l;
    forall k, q | Holds(m, k, q)
      ensures Holds(l, k, q) || (n.a <= k <= n.b && q == n.position + k - n.a)
    {
      var iv :| iv in m && iv.a <= k <= iv.b && q == iv.position + k - iv.a;
      if iv !in l {
        assert iv == m[i];
        if k <= l[i].b { assert Holds(l, k, q); }
      }
    }
    forall k, q | Holds(l, k, q) ensures Holds(m, k, q) {
      var iv :| iv in l && iv.a <= k <= iv.b && q == iv.position + k - iv.a;
      var j :| 0 <= j < |l| && l[j] == iv;
      assert m[j] in m;
    }
  }

  lemma HoldsCovers(l: seq<Interval>)
    ensures forall k :: Covered(l, k) <==> exists q :: Holds(l, k, q)
  {
    forall k | Covered(l, k) ensures exists q :: Holds(l, k, q) {
      var iv :| iv in l && iv.a <= k <= iv.b;
      assert Holds(l, k, iv.position + k - iv.a);
    }
  }

  /** Block `n` names no origin byte of `l`. */
  ghost predicate Fresh(l: seq<Interval>, n: Interval) {
    forall k :: n.a <= k <= n.b ==> !Covered(l, k)
  }

  lemma FreshIsApart(l: seq<Interval>, n: Interval)
    requires WellFormed(l) && Fresh(l, n) && n.a <= n.b
    ensures forall iv :: iv in l ==> Apart(iv, n)
  {
    forall iv | iv in l ensures Apart(iv, n) {
      if !Apart(iv, n) {
        var k := if iv.a <= n.a then n.a else iv.a;
        assert Covered(l, k);
      }
    }
  }

  /** Appending a fresh block at the end of the file keeps the tiling, in both branches. */
  lemma AppendKeepsLayout(l: seq<Interval>, n: Interval)
    requires Layout(l) && Fresh(l, n) && 0 <= n.a <= n.b && n.position == PointEnd(l)
    ensures Layout(Appended(l, n))
    ensures PointEnd(Appended(l, n)) == PointEnd(l) + n.Size()
  {
    FreshIsApart(l, n);
    BlocksEndBelow(l);
    if l == [] {
    } else if l[LastNode(l)].b + 1 == n.a {
      MergeKeepsLayout(l, n);
    } else {
      InsertKeepsLayout(l, n);
    }
  }

  lemma MergeKeepsLayout(l: seq<Interval>, n: Interval)
    requires l != [] && Layout(l) && n.a <= n.b && n.position == PointEnd(l)
    requires l[LastNode(l)].b + 1 == n.a && forall iv :: iv in l ==> Apart(iv, n)
    ensures Layout(Appended(l, n))
    ensures PointEnd(Appended(l, n)) == PointEnd(l) + n.Size()
  {
    var i := LastNode(l);
    var m := Appended(l, n);
    LastOfUpdated(l, n.b);
    MergeKeepsShape(l, n, i, m);
    forall q | 0 <= q < PointEnd(m) ensures OnDisk(m, q) {
      assert m[i] in m;
      if q < PointEnd(l) {
        assert OnDisk(l, q);
        var iv :| iv in l && iv.position <= q < iv.End();
        var j :| 0 <= j < |l| && l[j] == iv;
        assert m[j] in m;
      }
    }
  }

  lemma MergeKeepsShape(l: seq<Interval>, n: Interval, i: nat, m: seq<Interval>)
    requires i < |l| && m == l[i := l[i].(b := n.b)]
    requires WellFormed(l) && OriginDisjoint(l) && DiskDisjoint(l)
    requires forall j :: 0 <= j < |l| ==> l[j].position <= l[i].position
    requires l[i].b + 1 == n.a <= n.b && forall iv :: iv in l ==> Apart(iv, n)
    ensures WellFormed(m) && OriginDisjoint(m) && DiskDisjoint(m)
  {
    forall j | 0 <= j < |l|
      ensures l[j] in l
      ensures j != i ==> Apart(l[j], m[i]) && Apart(m[i], l[j]) && l[j].End() <= m[i].position
    {
      assert l[j] in l && l[i] in l;
      if j < i { assert Apart(l[j], l[i]); } else if j > i { assert Apart(l[i], l[j]); }
    }
    forall iv | iv in m ensures 0 <= iv.a <= iv.b && 0 <= iv.position {
      assert l[i] in l;
      if iv != m[i] { assert iv in l; }
    }
  }

  lemma InsertKeepsLayout(l: seq<Interval>, n: Interval)
    requires l != [] && Layout(l) && 0 <= n.a <= n.b && n.position == PointEnd(l)
    requires l[LastNode(l)].b + 1 != n.a && forall iv :: iv in l ==> Apart(iv, n)
    ensures Layout(Appended(l, n))
    ensures PointEnd(Appended(l, n)) == PointEnd(l) + n.Size()
  {
    var i := LastNode(l);
    var m := Appended(l, n);
    BlocksEndBelow(l);
    assert l[i] in l;
    LastOfInserted(l, n);
    InsertKeepsShape(l, n, i + 1, m);
    forall q | 0 <= q < PointEnd(m) ensures OnDisk(m, q) {
      assert n in m;
      if q < PointEnd(l) {
        assert OnDisk(l, q);
        var iv :| iv in l && iv.position <= q < iv.End();
        assert iv in m;
      }
    }
  }

  lemma InsertKeepsShape(l: seq<Interval>, n: Interval, i: nat, m: seq<Interval>)
    requires i <= |l| && m == l[..i] + [n] + l[i..]
    requires WellFormed(l) && OriginDisjoint(l) && DiskDisjoint(l)
    requires 0 <= n.a <= n.b && 0 <= n.position
    requires forall iv :: iv in l ==> Apart(iv, n) && iv.End() <= n.position
    ensures WellFormed(m) && OriginDisjoint(m) && DiskDisjoint(m)
    ensures SameEntries(m, [n] + l)
  {
    assert forall j :: 0 <= j < |m| ==> m[j] == if j < i then l[j] else if j == i then n else l[j - 1];
    forall j | 0 <= j < |l| ensures l[j] in l {}
    forall x, y | 0 <= x < y < |m| ensures Apart(m[x], m[y]) && DiskApart(m[x], m[y]) {
      if x == i || y == i {
      } else {
        var x', y' := if x < i then x else x - 1, if y < i then y else y - 1;
        assert Apart(l[x'], l[y']) && DiskApart(l[x'], l[y']);
      }
    }
  }

  // ----- checkpoints

  /** Record block `n` in pieces: a checkpoint after each of the lengths `cuts`, then the rest. */
  ghost function AppendedInPieces(l: seq<Interval>, n: Interval, cuts: seq<int>): seq<Interval>
    decreases |cuts|
  {
    if cuts == [] then Appended(l, n)
    else AppendedInPieces(Appended(l, Head(n, cuts[0])), Rest(n, cuts[0]), cuts[1..])
  }

  /** The checkpoints fall strictly inside the block, one after the other. */
  ghost predicate CutsInside(n: Interval, cuts: seq<int>)
    decreases |cuts|
  {
    cuts != [] ==> 0 < cuts[0] < n.Size() && CutsInside(Rest(n, cuts[0]), cuts[1..])
  }

  lemma OneCheckpoint(l: seq<Interval>, n: Interval, length: int)
    requires WellFormed(l) && n.position == PointEnd(l) && 0 < length < n.Size()
    ensures PointEnd(Appended(l, Head(n, length))) == Rest(n, length).position
    ensures Appended(Appended(l, Head(n, length)), Rest(n, length)) == Appended(l, n)
  {
    if l != [] {
      assert l[LastNode(l)] in l;
      hide WellFormed, LastNode;
      if l[LastNode(l)].b + 1 == n.a {
        CheckpointMerged(l, n, length);
      } else {
        CheckpointInserted(l, n, length);
      }
    }
  }

  lemma CheckpointMerged(l: seq<Interval>, n: Interval, length: int)
    requires l != [] && l[LastNode(l)].b + 1 == n.a && n.position == PointEnd(l)
    ensures PointEnd(Appended(l, Head(n, length))) == Rest(n, length).position
    ensures Appended(Appended(l, Head(n, length)), Rest(n, length)) == Appended(l, n)
  {
    LastOfUpdated(l, Head(n, length).b);
    hide LastNode;
    var k := LastNode(l);
    var m := l[k := l[k].(b := Head(n, length).b)];
    assert m[k := m[k].(b := n.b)] == l[k := l[k].(b := n.b)];
  }

  lemma CheckpointInserted(l: seq<Interval>, n: Interval, length: int)
    requires l != [] && l[LastNode(l)].b + 1 != n.a && l[LastNode(l)].position < n.position
    ensures PointEnd(Appended(l, Head(n, length))) == Rest(n, length).position
    ensures Appended(Appended(l, Head(n, length)), Rest(n, length)) == Appended(l, n)
  {
    LastOfInserted(l, Head(n, length));
    hide LastNode;
    var k := LastNode(l);
    ReplaceInserted(l[..k + 1], Head(n, length), n, l[k + 1..]);
  }

  lemma ReplaceInserted(x: seq<Interval>, h: Interval, n: Interval, y: seq<Interval>)
    ensures (x + [h] + y)[|x|] == h
    ensures (x + [h] + y)[|x| := n] == x + [n] + y
  {
  }

  lemma AppendKeepsWellFormed(l: seq<Interval>, n: Interval)
    requires WellFormed(l) && 0 <= n.a <= n.b && 0 <= n.position
    ensures WellFormed(Appended(l, n))
  {
    var m := Appended(l, n);
    if l != [] {
      var k := LastNode(l);
      assert l[k] in l;
      forall iv | iv in m ensures iv in l || iv == n || iv == l[k].(b := n.b) {}
    }
  }

  /** Checkpoints leave no trace: any placement of them inside a block gives the list
      one append of the whole block gives. */
  lemma {:induction false} CheckpointsInvisible(l: seq<Interval>, n: Interval, cuts: seq<int>)
    requires WellFormed(l) && 0 <= n.a <= n.b && 0 <= n.position == PointEnd(l) && CutsInside(n, cuts)
    ensures AppendedInPieces(l, n, cuts) == Appended(l, n)
    decreases |cuts|
  {
    if cuts != [] {
      OneCheckpoint(l, n, cuts[0]);
      AppendKeepsWellFormed(l, Head(n, cuts[0]));
      CheckpointsInvisible(Appended(l, Head(n, cuts[0])), Rest(n, cuts[0]), cuts[1..]);
    }
  }

  // ----- size

  ghost function Without(l: seq<Interval>, k: nat): seq<Interval>
    requires k < |l|
  {
    l[..k] + l[k + 1..]
  }

  lemma {:induction false} FileSizeWithout(l: seq<Interval>, k: nat)
    requires k < |l|
    ensures FileSize(l) == FileSize(Without(l, k)) + l[k].Size()
    decreases |l|
  {
    var w := Without(l, k);
    if k == |l| - 1 {
      assert w == l[..k];
    } else {
      var m := l[..|l| - 1];
      FileSizeWithout(m, k);
      assert w[..|w| - 1] == Without(m, k);
      assert w[|w| - 1] == l[|l| - 1];
    }
  }

  lemma WithoutKeepsShape(l: seq<Interval>, k: nat)
    requires k < |l| && WellFormed(l) && OriginDisjoint(l) && DiskDisjoint(l)
    ensures WellFormed(Without(l, k)) && OriginDisjoint(Without(l, k)) && DiskDisjoint(Without(l, k))
  {
    var w := Without(l, k);
    assert forall j :: 0 <= j < |w| ==> w[j] == if j < k then l[j] else l[j + 1];
    forall iv | iv in w ensures iv in l {}
  }

  lemma WithoutLastStops(l: seq<Interval>)
    requires l != [] && Layout(l)
    ensures forall iv :: iv in Without(l, LastNode(l)) ==> iv.End() <= l[LastNode(l)].position
  {
    var k := LastNode(l);
    var w := Without(l, k);
    assert l[k] in l;
    hide OriginDisjoint, OnDisk, PointEnd, LastNode;
    forall iv | iv in w ensures iv.End() <= l[k].position {
      var j :| 0 <= j < |w| && w[j] == iv;
      var j' := if j < k then j else j + 1;
      assert l[j'] == iv && l[j'] in l;
      assert if j' < k then DiskApart(l[j'], l[k]) else DiskApart(l[k], l[j']);
    }
  }

  lemma KeptWithout(l: seq<Interval>, k: nat, iv: Interval)
    requires k < |l| && iv in l && iv != l[k]
    ensures iv in Without(l, k)
  {
    var j :| 0 <= j < |l| && l[j] == iv;
    assert Without(l, k)[if j < k then j else j - 1] == l[j];
  }

  lemma WithoutLastFills(l: seq<Interval>, q: int)
    requires l != [] && Layout(l) && 0 <= q < l[LastNode(l)].position
    ensures OnDisk(Without(l, LastNode(l)), q)
  {
    var k := LastNode(l);
    assert l[k] in l;
    assert OnDisk(l, q);
    hide Layout, WellFormed, OriginDisjoint, DiskDisjoint, PointEnd, LastNode, Without;
    var iv :| iv in l && iv.position <= q < iv.End();
    KeptWithout(l, k, iv);
  }

  lemma WithoutLastKeepsLayout(l: seq<Interval>)
    requires l != [] && Layout(l)
    ensures Layout(Without(l, LastNode(l)))
    ensures PointEnd(Without(l, LastNode(l))) == l[LastNode(l)].position
  {
    var k := LastNode(l);
    var w := Without(l, k);
    WithoutKeepsShape(l, k);
    WithoutLastStops(l);
    forall q | 0 <= q < l[k].position ensures OnDisk(w, q) {
      WithoutLastFills(l, q);
    }
    EndOfTiling(w, l[k].position);
  }

  lemma EndOfTiling(w: seq<Interval>, e: nat)
    requires WellFormed(w) && DiskDisjoint(w)
    requires forall iv :: iv in w ==> iv.End() <= e
    requires forall q :: 0 <= q < e ==> OnDisk(w, q)
    ensures PointEnd(w) == e
  {
    BlocksEndBelow(w);
    if w != [] {
      assert w[LastNode(w)] in w;
    }
    assert !OnDisk(w, PointEnd(w));
  }

  /** The number of bytes recorded for the file is the offset where it ends. */
  lemma {:induction false} FileSizeIsPointEnd(l: seq<Interval>)
    requires Layout(l)
    ensures FileSize(l) == PointEnd(l)
    decreases |l|
  {
    if l != [] {
      FileSizeWithout(l, LastNode(l));
      WithoutLastKeepsLayout(l);
      FileSizeIsPointEnd(Without(l, LastNode(l)));
    }
  }

  // ----- reordering

  ghost predicate SameEntries(l: seq<Interval>, m: seq<Interval>) {
    forall iv :: iv in l <==> iv in m
  }

  lemma FirstIsEntry(l: seq<Interval>)
    ensures l == [] || l[0] in l
  {
  }

  /** The order of a list does not change what it says or where it ends. */
  lemma ReorderKeepsMeaning(l: seq<Interval>, m: seq<Interval>)
    requires SameEntries(l, m) && Layout(l) && OriginDisjoint(m) && DiskDisjoint(m)
    ensures Layout(m)
    ensures PointEnd(m) == PointEnd(l) && FileSize(m) == FileSize(l)
    ensures forall e :: IsExtreme(l, e) <==> IsExtreme(m, e)
    ensures forall k, q :: Holds(l, k, q) <==> Holds(m, k, q)
  {
    ReorderKeepsEnd(l, m);
    forall q | 0 <= q < PointEnd(m) ensures OnDisk(m, q) {
      assert OnDisk(l, q);
    }
    FileSizeIsPointEnd(l);
    FileSizeIsPointEnd(m);
  }

  lemma ReorderKeepsEnd(l: seq<Interval>, m: seq<Interval>)
    requires SameEntries(l, m) && WellFormed(l) && DiskDisjoint(l) && DiskDisjoint(m)
    ensures PointEnd(m) == PointEnd(l)
  {
    BlocksEndBelow(l);
    BlocksEndBelow(m);
    if l == [] {
      FirstIsEntry(m);
    } else {
      assert l[LastNode(l)] in m;
      assert m[LastNode(m)] in l;
    }
  }

  // ----- sorting by origin

  ghost predicate Increasing(s: seq<Interval>) {
    forall i, j :: 0 <= i < j < |s| ==> s[i].a <= s[j].a
  }

  function Insert(x: Interval, s: seq<Interval>): (r: seq<Interval>)
    ensures forall iv :: iv in r <==> iv in s || iv == x
  {
    if s == [] || x.a <= s[0].a then [x] + s else [s[0]] + Insert(x, s[1..])
  }

  /** The list as `list::sort` with `compareIntervals` leaves it. */
  function SortedByA(l: seq<Interval>): (r: seq<Interval>)
    ensures |r| == |l|
    ensures forall iv :: iv in r <==> iv in l
  {
    if l == [] then []
    else
      var r := Insert(l[0], SortedByA(l[1..]));
      InsertLength(l[0], SortedByA(l[1..]));
      assert l == [l[0]] + l[1..];
      r
  }

  lemma InsertLength(x: Interval, s: seq<Interval>)
    ensures |Insert(x, s)| == |s| + 1
  {
  }

  lemma {:induction false} InsertKeepsOrder(x: Interval, s: seq<Interval>)
    requires Increasing(s)
    ensures Increasing(Insert(x, s))
    decreases |s|
  {
    if s != [] && x.a > s[0].a {
      InsertKeepsOrder(x, s[1..]);
      var t := Insert(x, s[1..]);
      forall j | 0 <= j < |t| ensures s[0].a <= t[j].a {
        assert t[j] in t;
      }
    }
  }

  lemma {:induction false} SortedIsIncreasing(l: seq<Interval>)
    ensures Increasing(SortedByA(l))
    decreases |l|
  {
    if l != [] {
      SortedIsIncreasing(l[1..]);
      InsertKeepsOrder(l[0], SortedByA(l[1..]));
    }
  }

  lemma {:induction false} InsertKeepsDisjoint(x: Interval, s: seq<Interval>)
    requires OriginDisjoint(s) && forall y :: y in s ==> Apart(x, y)
    ensures OriginDisjoint(Insert(x, s))
    decreases |s|
  {
    if s != [] && x.a > s[0].a {
      InsertKeepsDisjoint(x, s[1..]);
      var t := Insert(x, s[1..]);
      forall j | 0 <= j < |t| ensures Apart(s[0], t[j]) {
        assert t[j] in t && s[0] in s;
        if t[j] != x {
          var i :| 1 <= i < |s| && s[i] == t[j];
        }
      }
    }
  }

  lemma {:induction false} InsertKeepsDiskDisjoint(x: Interval, s: seq<Interval>)
    requires DiskDisjoint(s) && forall y :: y in s ==> DiskApart(x, y)
    ensures DiskDisjoint(Insert(x, s))
    decreases |s|
  {
    if s != [] && x.a > s[0].a {
      InsertKeepsDiskDisjoint(x, s[1..]);
      var t := Insert(x, s[1..]);
      forall j | 0 <= j < |t| ensures DiskApart(s[0], t[j]) {
        assert t[j] in t && s[0] in s;
        if t[j] != x {
          var i :| 1 <= i < |s| && s[i] == t[j];
        }
      }
    }
  }

  lemma {:induction false} SortKeepsDisjoint(l: seq<Interval>)
    requires OriginDisjoint(l)
    ensures OriginDisjoint(SortedByA(l))
    ensures DiskDisjoint(l) ==> DiskDisjoint(SortedByA(l))
    decreases |l|
  {
    if l != [] {
      SortKeepsDisjoint(l[1..]);
      InsertKeepsDisjoint(l[0], SortedByA(l[1..]));
      if DiskDisjoint(l) {
        InsertKeepsDiskDisjoint(l[0], SortedByA(l[1..]));
      }
    }
  }

  /** Sorting a valid list in place, as getRangeWork does, changes nothing the rest of
      the program reads from it. */
  lemma SortKeepsMeaning(l: seq<Interval>)
    requires Layout(l)
    ensures Layout(SortedByA(l))
    ensures PointEnd(SortedByA(l)) == PointEnd(l) && FileSize(SortedByA(l)) == FileSize(l)
    ensures forall k, q :: Holds(l, k, q) <==> Holds(SortedByA(l), k, q)
  {
    SortKeepsDisjoint(l);
    ReorderKeepsMeaning(l, SortedByA(l));
  }

  /** The entries after the first are those that differ from it. */
  lemma TailEntries(s: seq<Interval>)
    requires s != [] && WellFormed(s) && OriginDisjoint(s)
    ensures forall iv :: iv in s[1..] <==> iv in s && iv != s[0]
  {
    assert s[0] in s;
    forall iv | iv in s[1..] ensures iv in s && iv != s[0] {
      var n :| 1 <= n < |s| && s[n] == iv;
      assert Apart(s[0], s[n]);
    }
    assert s == [s[0]] + s[1..];
  }

  lemma SameFirst(s: seq<Interval>, t: seq<Interval>)
    requires s != [] && t != [] && SameEntries(s, t) && WellFormed(s)
    requires Increasing(s) && Increasing(t) && OriginDisjoint(t)
    ensures s[0] == t[0]
  {
    assert s[0] in t && t[0] in s;
    var i :| 0 <= i < |t| && t[i] == s[0];
    var j :| 0 <= j < |s| && s[j] == t[0];
    ApartAt(t, 0, i);
  }

  /** A disjoint list has only one order by origin. */
  lemma {:induction false} SortedUnique(s: seq<Interval>, t: seq<Interval>)
    requires SameEntries(s, t) && WellFormed(s)
    requires Increasing(s) && Increasing(t) && OriginDisjoint(s) && OriginDisjoint(t)
    ensures s == t
    decreases |s|
  {
    if s == [] {
      FirstIsEntry(t);
    } else {
      assert s[0] in t;
      SameFirst(s, t);
      TailEntries(s);
      TailEntries(t);
      SortedUnique(s[1..], t[1..]);
      assert s == [s[0]] + s[1..] && t == [t[0]] + t[1..];
    }
  }

  lemma SortForgetsOrder(l: seq<Interval>, m: seq<Interval>)
    requires SameEntries(l, m) && WellFormed(l) && OriginDisjoint(l) && OriginDisjoint(m)
    ensures SortedByA(l) == SortedByA(m)
  {
    SortedIsIncreasing(l);
    SortedIsIncreasing(m);
    SortKeepsDisjoint(l);
    SortKeepsDisjoint(m);
    SortedUnique(SortedByA(l), SortedByA(m));
  }
}
