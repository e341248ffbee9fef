/** Filling blocks of the cache file: what one write, one finished block and one checkpoint
    do to the agreement between the range list, the file and the origin. Pure facts about
    values; Session applies them to the state of a request. */
module Blocks {
  import opened Intervals
  import opened RangeWork
  import opened CacheFile

  type Origin = int -> char

  /** `n` bytes of the origin from `a` on are in the file at offset `q`. */
  ghost predicate Stored(data: string, q: int, a: int, n: int, origin: Origin) {
    forall i :: q <= i < q + n ==> 0 <= i < |data| && data[i] == origin(a + i - q)
  }

  /** The whole segment is known to the list, at the segment's place on disk. */
  ghost predicate Located(l: seq<Interval>, s: Interval) {
    forall k, q :: s.a <= k <= s.b && q == s.position + k - s.a ==> Holds(l, k, q)
  }

  /** The list knows every origin byte from `from` up to, not including, `to`. */
  ghost predicate Knows(l: seq<Interval>, from: int, to: int) {
    forall k :: from <= k < to ==> Covered(l, k)
  }

  /** What is left of a plan runs from `from` to `to`; each segment is either located on disk
      or untouched by the list. */
  ghost predicate Remaining(l: seq<Interval>, from: int, to: int, rest: seq<Interval>)
    decreases |rest|
  {
    if rest == [] then from == to + 1
    else
      && rest[0].a == from <= rest[0].b
      && (if rest[0].position >= 0 then Located(l, rest[0]) else rest[0].position == -1 && Fresh(l, rest[0]))
      && Remaining(l, rest[0].b + 1, to, rest[1..])
  }

  lemma {:induction false} SegmentsRemain(l: seq<Interval>, from: int, to: int, p: seq<Interval>)
    requires WellFormed(l) && Segments(l, from, to, p)
    ensures Remaining(l, from, to, p)
    decreases |p|
  {
    if p != [] {
      SegmentsRemain(l, p[0].b + 1, to, p[1..]);
      if CachedSegment(l, to, p[0]) {
        CachedIsLocated(l, to, p[0]);
      }
    }
  }

  lemma CachedIsLocated(l: seq<Interval>, to: int, s: Interval)
    requires WellFormed(l) && CachedSegment(l, to, s)
    ensures Located(l, s) && s.position >= 0
  {
    var iv :| && iv in l && iv.a <= s.a <= iv.b && s.position == iv.position + s.a - iv.a
               && s.b == if iv.b <= to then iv.b else to;
    forall k, q | s.a <= k <= s.b && q == s.position + k - s.a ensures Holds(l, k, q) {
      assert iv.a <= k <= iv.b;
    }
  }

  /** A list that learned only bytes before `from` leaves the rest of the plan as it was. */
  lemma {:induction false} RemainingStays(l: seq<Interval>, m: seq<Interval>, from: int, to: int, rest: seq<Interval>)
    requires Remaining(l, from, to, rest) && Extends(l, m)
    requires forall k :: from <= k && Covered(m, k) ==> Covered(l, k)
    ensures Remaining(m, from, to, rest)
    decreases |rest|
  {
    if rest != [] {
      RemainingStays(l, m, rest[0].b + 1, to, rest[1..]);
    }
  }

  lemma {:induction false} RemainingEnds(l: seq<Interval>, from: int, to: int, rest: seq<Interval>)
    requires Remaining(l, from, to, rest)
    ensures from <= to + 1
    decreases |rest|
  {
    if rest != [] {
      RemainingEnds(l, rest[0].b + 1, to, rest[1..]);
    }
  }

  /** Planning sorts the list in place; everything known about it stays. */
  lemma SortKeepsLoaded(loaded: seq<Interval>, l: seq<Interval>, data: string, origin: Origin)
    requires Layout(l) && Coherent(l, data, origin) && SameEntries(loaded, l)
    ensures Layout(SortedByA(l)) && Coherent(SortedByA(l), data, origin) && SameEntries(loaded, SortedByA(l))
    ensures forall a, b :: WorkPlan(SortedByA(l), a, b) == WorkPlan(l, a, b)
  {
    SortKeepsMeaning(l);
    SortForgetsOrder(l, SortedByA(l));
  }

  // ----- the block being filled

  /** Block `cur` is being filled and has `done` bytes. A block of its own (`bwrite`) lies at
      the end of the file and is unknown to the list; any other is known and rewritten. */
  ghost predicate Working(l: seq<Interval>, data: string, origin: Origin, cur: Interval, done: int, bwrite: bool) {
    && Layout(l) && Coherent(l, data, origin)
    && 0 <= cur.a <= cur.b && 0 <= cur.position && 0 <= done <= cur.Size()
    && cur.position + done <= |data|
    && if bwrite then
         && cur.position == PointEnd(l) && Fresh(l, cur)
         && Stored(data, cur.position, cur.a, done, origin)
       else Located(l, cur)
  }

  lemma EndIsInFile(l: seq<Interval>, data: string, origin: Origin)
    requires Layout(l) && Coherent(l, data, origin)
    ensures 0 <= PointEnd(l) <= |data|
    ensures forall k, q :: Holds(l, k, q) ==> 0 <= q < PointEnd(l)
  {
    BlocksEndBelow(l);
    if l != [] {
      var last := l[LastNode(l)];
      assert last in l;
      assert Holds(l, last.b, last.position + last.b - last.a);
    }
  }

  /** The segment as it is entered: a missing one is placed at the end of the file. */
  function Placed(l: seq<Interval>, s: Interval): Interval {
    if s.position < 0 then s.(position := PointEnd(l)) else s
  }

  lemma EnterBlock(l: seq<Interval>, data: string, origin: Origin, from: int, to: int, rest: seq<Interval>)
    requires Layout(l) && Coherent(l, data, origin) && rest != [] && 0 <= from
    requires Remaining(l, from, to, rest)
    ensures Working(l, data, origin, Placed(l, rest[0]), 0, rest[0].position < 0)
    ensures rest[0].a == from <= rest[0].b && 0 <= Placed(l, rest[0]).position
    ensures Remaining(l, rest[0].b + 1, to, rest[1..])
  {
    EndIsInFile(l, data, origin);
    var s := rest[0];
    if s.position >= 0 {
      assert Holds(l, s.a, s.position);
    } else {
      assert Fresh(l, Placed(l, s));
    }
  }

  /** Body bytes written at the cursor: a known block keeps its contents, a block of its own
      grows, and nothing the list names changes. */
  lemma WriteBlock(l: seq<Interval>, data: string, origin: Origin, cur: Interval, done: int, bwrite: bool, d: string)
    requires Working(l, data, origin, cur, done, bwrite) && done + |d| <= cur.Size()
    requires forall i :: 0 <= i < |d| ==> d[i] == origin(cur.a + done + i)
    ensures Working(l, Overwritten(data, cur.position + done, d), origin, cur, done + |d|, bwrite)
    ensures Coherent(l, Overwritten(data, cur.position + done, d), origin)
    ensures !bwrite ==> Overwritten(data, cur.position + done, d) == data
  {
    hide Layout, Holds, PointEnd, Covered, Fresh, Overwritten;
    var off := cur.position + done;
    var data' := Overwritten(data, off, d);
    OverwrittenAt(data, off, d);
    EndIsInFile(l, data, origin);
    if bwrite {
      assert Coherent(l, data', origin);
    } else {
      forall i | 0 <= i < |d| ensures off + i < |data| && data[off + i] == d[i] {
        assert Holds(l, cur.a + done + i, cur.position + done + i);
      }
      if d != [] {
        var last := |d| - 1;
        assert d[last] == origin(cur.a + done + last);
        assert data[off + last] == d[last];
      }
      assert data' == data;
    }
  }

  /** A block of its own is complete: the list that has it appended names it and stays valid. */
  lemma FinishBlock(l: seq<Interval>, data: string, origin: Origin, cur: Interval)
    requires Working(l, data, origin, cur, cur.Size(), true)
    ensures Layout(Appended(l, cur)) && Coherent(Appended(l, cur), data, origin)
    ensures Extends(l, Appended(l, cur))
    ensures forall k :: cur.b < k && Covered(Appended(l, cur), k) ==> Covered(l, k)
    ensures PointEnd(Appended(l, cur)) == PointEnd(l) + cur.Size()
    ensures forall from :: Knows(l, from, cur.a) ==> Knows(Appended(l, cur), from, cur.b + 1)
  {
    AppendKeepsLayout(l, cur);
    AppendedHolds(l, cur);
    AppendedCovers(l, cur);
    hide Layout, Holds, PointEnd, Covered, Fresh, Appended;
  }

  lemma AppendedCovers(l: seq<Interval>, n: Interval)
    requires WellFormed(l) && n.a <= n.b && n.position == PointEnd(l)
    ensures forall k :: Covered(Appended(l, n), k) <==> Covered(l, k) || n.a <= k <= n.b
  {
    AppendedHolds(l, n);
    HoldsCovers(l);
    var m := Appended(l, n);
    HoldsCovers(m);
    hide WellFormed, PointEnd, Covered, Holds, Appended;
    forall k | n.a <= k <= n.b ensures Covered(m, k) {
      assert Holds(m, k, n.position + k - n.a);
    }
  }

  lemma LocatedIsKnown(l: seq<Interval>, s: Interval)
    requires Located(l, s)
    ensures forall from :: Knows(l, from, s.a) ==> Knows(l, from, s.b + 1)
  {
    HoldsCovers(l);
    forall k | s.a <= k <= s.b ensures Covered(l, k) {
      assert Holds(l, k, s.position + k - s.a);
    }
  }

  /** A checkpoint after `done` bytes: the finished part enters the list, the rest of the
      block goes on as a block of its own at the new end of the file. */
  lemma CheckpointBlock(l: seq<Interval>, data: string, origin: Origin, cur: Interval, done: int)
    requires Working(l, data, origin, cur, done, true) && 0 < done < cur.Size()
    ensures var m := Appended(l, Head(cur, done));
            && Working(m, data, origin, Rest(cur, done), 0, true)
            && Layout(m) && Coherent(m, data, origin) && Extends(l, m)
            && (forall from :: Knows(l, from, cur.a) ==> Knows(m, from, cur.a + done))
            && forall k :: cur.b < k && Covered(m, k) ==> Covered(l, k)
  {
    var h := Head(cur, done);
    var m := Appended(l, h);
    assert Working(l, data, origin, h, done, true);
    FinishBlock(l, data, origin, h);
    FreshAfter(l, cur, done);
  }

  lemma FreshAfter(l: seq<Interval>, cur: Interval, done: int)
    requires Layout(l) && Fresh(l, cur) && 0 <= cur.a && 0 < done < cur.Size() && cur.position == PointEnd(l)
    ensures Fresh(Appended(l, Head(cur, done)), Rest(cur, done))
  {
    var m := Appended(l, Head(cur, done));
    AppendedHolds(l, Head(cur, done));
    HoldsCovers(l);
    HoldsCovers(m);
    forall k | cur.a + done <= k <= cur.b ensures !Covered(m, k) {
      assert !Covered(l, k);
    }
  }

  // ----- crashes

  /** Whatever happens to unflushed bytes, `saved` will agree with the file. */
  ghost predicate CrashSafe(saved: seq<Interval>, durable: string, pending: set<(int, char)>, origin: Origin) {
    && Coherent(saved, durable, origin)
    && forall w, k :: w in pending && Holds(saved, k, w.0) ==> w.1 == origin(k)
  }

  /** The list last saved agrees with every file a crash can leave. */
  lemma CrashSafeSurvives(saved: seq<Interval>, durable: string, pending: set<(int, char)>, origin: Origin, image: string)
    requires CrashSafe(saved, durable, pending, origin) && Survives(durable, pending, image)
    ensures Coherent(saved, image, origin)
  {
    forall k, q | Holds(saved, k, q) ensures 0 <= q < |image| && image[q] == origin(k) {
      if image[q] != durable[q] {
        assert (q, image[q]) in pending;
      }
    }
  }

  /** That is all there is to it: a list that is not safe is contradicted by some file a crash
      can leave. */
  lemma CrashSafeIff(saved: seq<Interval>, durable: string, pending: set<(int, char)>, origin: Origin)
    ensures CrashSafe(saved, durable, pending, origin) <==>
            forall image :: Survives(durable, pending, image) ==> Coherent(saved, image, origin)
  {
    hide Holds;
    if CrashSafe(saved, durable, pending, origin) {
      forall image | Survives(durable, pending, image) ensures Coherent(saved, image, origin) {
        CrashSafeSurvives(saved, durable, pending, origin, image);
      }
    } else {
      assert Survives(durable, pending, durable);
      if Coherent(saved, durable, origin) {
        var w, k :| w in pending && Holds(saved, k, w.0) && w.1 != origin(k);
        var image := durable[w.0 := w.1];
        assert (w.0, image[w.0]) == w;
        assert Survives(durable, pending, image);
        assert image[w.0] != origin(k);
      }
    }
  }

  /** Writing at the cursor never endangers a list that is part of the current one. */
  lemma WriteIsCrashSafe(saved: seq<Interval>, l: seq<Interval>, durable: string, pending: set<(int, char)>,
                         data: string, origin: Origin, cur: Interval, done: int, bwrite: bool, d: string)
    requires Working(l, data, origin, cur, done, bwrite) && done + |d| <= cur.Size()
    requires forall i :: 0 <= i < |d| ==> d[i] == origin(cur.a + done + i)
    requires Extends(saved, l) && CrashSafe(saved, durable, pending, origin)
    ensures CrashSafe(saved, durable, pending + WriteSet(cur.position + done, d), origin)
  {
    EndIsInFile(l, data, origin);
    hide Layout, Holds, PointEnd, Covered, Fresh, Stored;
    forall w, k | w in WriteSet(cur.position + done, d) && Holds(saved, k, w.0) ensures w.1 == origin(k) {
      var i :| 0 <= i < |d| && w == (cur.position + done + i, d[i]);
      assert Holds(l, k, w.0);
      assert !bwrite;
      assert Holds(l, cur.a + done + i, cur.position + done + i);
      assert data[w.0] == origin(k);
    }
  }

  /** With every byte out of the process, agreement is all it takes. */
  lemma FlushIsCrashSafe(saved: seq<Interval>, l: seq<Interval>, data: string, origin: Origin)
    requires Extends(saved, l) && Coherent(l, data, origin)
    ensures CrashSafe(saved, data, {}, origin) && CrashSafe(l, data, {}, origin)
  {
  }

  lemma SameHoldsSameSafety(l: seq<Interval>, m: seq<Interval>, durable: string, pending: set<(int, char)>, origin: Origin)
    requires forall k, q :: Holds(l, k, q) <==> Holds(m, k, q)
    ensures CrashSafe(l, durable, pending, origin) <==> CrashSafe(m, durable, pending, origin)
  {
    hide Holds;
  }

  // ----- what a list decides about a request

  /** The first byte from which on the list knows everything up to, not including, `end`. */
  ghost function KnownFrom(l: seq<Interval>, a: int, end: int): (r: int)
    requires a <= end
    ensures a <= r <= end && Knows(l, r, end)
    ensures forall s :: a <= s <= end && Knows(l, s, end) ==> r <= s
    decreases end - a
  {
    if a == end || !Covered(l, end - 1) then end
    else
      var before := end - 1;
      var r := KnownFrom(l, a, before);
      assert forall s :: s < end && Knows(l, s, end) ==> Knows(l, s, before);
      r
  }

  lemma KnownFromIff(l: seq<Interval>, a: int, s: int, end: int)
    requires a <= s <= end
    ensures Knows(l, s, end) <==> KnownFrom(l, a, end) <= s
  {
    hide KnownFrom, Covered;
  }

  /** What is left of a plan is all cached if and only if the list knows all of its bytes. */
  lemma {:induction false} RestDecides(l: seq<Interval>, from: int, to: int, rest: seq<Interval>)
    requires Remaining(l, from, to, rest)
    ensures AllCached(rest) <==> Knows(l, from, to + 1)
    decreases |rest|
  {
    hide Covered, Holds;
    RemainingEnds(l, from, to, rest);
    if rest != [] {
      RemainingEnds(l, rest[0].b + 1, to, rest[1..]);
      RestDecides(l, rest[0].b + 1, to, rest[1..]);
      var tail := rest[1..];
      assert forall j :: 0 <= j < |tail| ==> tail[j] == rest[j + 1];
      if rest[0].position >= 0 {
        LocatedIsKnown(l, rest[0]);
        assert Knows(l, from, rest[0].a);
        assert Knows(l, from, rest[0].b + 1);
        assert AllCached(rest) <==> AllCached(rest[1..]);
      } else {
        assert !Covered(l, from);
      }
    }
  }

  /** The first segment and what follows it: with something missing, some byte from the
      segment's last one on is unknown. */
  lemma EntryDecides(l: seq<Interval>, from: int, to: int, rest: seq<Interval>)
    requires Remaining(l, from, to, rest) && rest != []
    ensures if AllCached(rest) then Knows(l, from, to + 1) else !Knows(l, rest[0].b, to + 1)
  {
    hide Covered, Holds;
    RestDecides(l, from, to, rest);
    RestDecides(l, rest[0].b + 1, to, rest[1..]);
    RemainingEnds(l, rest[0].b + 1, to, rest[1..]);
    if rest[0].position >= 0 {
      var tail := rest[1..];
      assert forall j :: 0 <= j < |tail| ==> tail[j] == rest[j + 1];
      assert AllCached(rest[1..]) ==> AllCached(rest);
    } else {
      assert !Covered(l, rest[0].b);
    }
  }
}
