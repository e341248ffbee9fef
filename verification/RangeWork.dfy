/** getRangeWork: the plan for a request window, segment by segment cached or missing. */
module RangeWork {
  import opened Intervals

  /** What getRangeWork hands back: the segments and the value of `*hit`. */
  datatype Plan = Plan(segments: seq<Interval>, hit: bool)

  /** Loop state of getRangeWork: segments collected, first byte not yet planned, hit. */
  datatype Progress = Progress(segments: seq<Interval>, tope: int, hit: bool)

  function Missing(a: int, b: int): Interval { Interval(a, b, -1) }

  // ----- the two loops as functions of the sorted list

  /** Where the first loop stops: at the first interval that begins after `a` or contains it. */
  function Seek(s: seq<Interval>, i: nat, a: int): (r: nat)
    requires i <= |s|
    ensures i <= r <= |s|
    ensures forall j :: i <= j < r ==> s[j].a <= a && s[j].b < a
    ensures r < |s| ==> a < s[r].a || s[r].a <= a <= s[r].b
    decreases |s| - i
  {
    if i == |s| || a < s[i].a || (a >= s[i].a && a <= s[i].b) then i else Seek(s, i + 1, a)
  }

  /** The second loop, from interval `i` on, with everything before `tope` planned. */
  function Walk(s: seq<Interval>, i: nat, tope: int, b: int): Progress
    requires i <= |s|
    decreases |s| - i
  {
    if tope < 0 || i == |s| then Progress([], tope, true)
    else if b < s[i].a then Progress([Missing(tope, b)], b + 1, false)
    else
      var gap := if tope < s[i].a then [Missing(tope, s[i].a - 1)] else [];
      var from := if tope < s[i].a then s[i].a else tope;
      if s[i].a <= b <= s[i].b then
        Progress(gap + [Interval(from, b, s[i].position)], s[i].b + 1, gap == [])
      else
        var rest := Walk(s, i + 1, s[i].b + 1, b);
        Progress(gap + [s[i]] + rest.segments, rest.tope, gap == [] && rest.hit)
  }

  /** What follows the loops: the tail after the last interval. */
  function Finish(p: Progress, a: int, b: int): Plan {
    if p.tope == -1 then Plan([Missing(a, b)], false)
    else if b > p.tope then Plan(p.segments + [Missing(p.tope, b)], false)
    else Plan(p.segments, p.hit)
  }

  function PlanSorted(s: seq<Interval>, a: int, b: int): Plan {
    var i := Seek(s, 0, a);
    if i == |s| then Finish(Progress([], -1, true), a, b)
    else if a < s[i].a then Finish(Walk(s, i, a, b), a, b)
    else
      var position := s[i].position + a - s[i].a;
      if b <= s[i].b then Plan([Interval(a, b, position)], true)
      else
        var rest := Walk(s, i + 1, s[i].b + 1, b);
        Finish(rest.(segments := [Interval(a, s[i].b, position)] + rest.segments), a, b)
  }

  function WorkPlan(l: seq<Interval>, a: int, b: int): Plan {
    PlanSorted(SortedByA(l), a, b)
  }

  /** The second loop of getRangeWork, run on the segments the first loop left. */
  method WalkIntervals(s: seq<Interval>, start: nat, from: int, b: int, done: seq<Interval>)
    returns (pr: seq<Interval>, tope: int, hit: bool)
    requires start <= |s|
    ensures pr == done + Walk(s, start, from, b).segments
    ensures tope == Walk(s, start, from, b).tope && hit == Walk(s, start, from, b).hit
  {
    pr, tope, hit := done, from, true;
    var i := start;
    ghost var all := Walk(s, start, from, b);
    while tope >= 0 && i < |s|
      invariant start <= i <= |s|
      invariant pr + Walk(s, i, tope, b).segments == done + all.segments
      invariant Walk(s, i, tope, b).tope == all.tope
      invariant (hit && Walk(s, i, tope, b).hit) == all.hit
      decreases |s| - i
    {
      if b < s[i].a {
        pr := pr + [Missing(tope, b)];
        hit := false;
        tope := b + 1;
        break;
      } else {
        if tope < s[i].a {
          pr := pr + [Missing(tope, s[i].a - 1)];
          tope := s[i].a;
          hit := false;
        }
        if b >= s[i].a && b <= s[i].b {
          pr := pr + [Interval(tope, b, s[i].position)];
          tope := s[i].b + 1;
          break;
        } else {
          pr := pr + [s[i]];
        }
      }
      tope := s[i].b + 1;
      i := i + 1;
    }
  }

  /** getRangeWork as written: sorts the caller's list, seeks the window, walks the intervals. */
  method GetRangeWork(l: seq<Interval>, a: int, b: int)
    returns (sorted: seq<Interval>, pr: seq<Interval>, hit: bool)
    ensures sorted == SortedByA(l)
    ensures Plan(pr, hit) == WorkPlan(l, a, b)
  {
    sorted := SortedByA(l);
    pr := [];
    var tope := -1;
    var i := 0;
    ghost var start := Seek(sorted, 0, a);
    while i < |sorted|
      invariant 0 <= i <= |sorted| && Seek(sorted, i, a) == start
      invariant pr == [] && tope == -1
    {
      if a < sorted[i].a {
        tope := a;
        break;
      } else if a >= sorted[i].a && a <= sorted[i].b {
        if b <= sorted[i].b {
          pr, hit := [Interval(a, b, sorted[i].position + a - sorted[i].a)], true;
          return;
        }
        pr := [Interval(a, sorted[i].b, sorted[i].position + a - sorted[i].a)];
        tope := sorted[i].b + 1;
        i := i + 1;
        break;
      }
      i := i + 1;
    }
    ghost var done := pr;
    ghost var all := Walk(sorted, i, tope, b);
    assert WorkPlan(l, a, b) == Finish(all.(segments := done + all.segments), a, b);
    pr, tope, hit := WalkIntervals(sorted, i, tope, b, pr);
    if tope == -1 {
      hit := false;
      pr := [Missing(a, b)];
      return;
    }
    if b > tope {
      hit := false;
      pr := pr + [Missing(tope, b)];
    }
  }

  // ----- what a plan is, independently of how it is found

  ghost predicate CachedSegment(l: seq<Interval>, to: int, s: Interval) {
    exists iv :: && iv in l && iv.a <= s.a <= iv.b && s.position == iv.position + s.a - iv.a
                 && s.b == if iv.b <= to then iv.b else to
  }

  ghost predicate MissingSegment(l: seq<Interval>, to: int, s: Interval) {
    && s.position == -1
    && (forall k :: s.a <= k <= s.b ==> !Covered(l, k))
    && (s.b == to || Covered(l, s.b + 1))
  }

  /** The segments run from `from` to `to` without a break. A cached one lies inside one
      interval, at that interval's bytes on disk, and runs to its end or the window's; a
      missing one touches no interval and runs to the next covered byte or the window's end. */
  ghost predicate Segments(l: seq<Interval>, from: int, to: int, p: seq<Interval>)
    decreases |p|
  {
    if p == [] then from == to + 1
    else
      && p[0].a == from <= p[0].b <= to
      && (CachedSegment(l, to, p[0]) || MissingSegment(l, to, p[0]))
      && Segments(l, p[0].b + 1, to, p[1..])
  }

  ghost predicate AllCached(p: seq<Interval>) {
    forall j :: 0 <= j < |p| ==> p[j].position >= 0
  }

  /** The window ends exactly one byte behind everything stored. */
  ghost predicate OneByteTail(l: seq<Interval>, a: int, b: int) {
    exists iv :: && iv in l && a <= iv.b && b == iv.b + 1
                 && forall other :: other in l ==> other.b <= iv.b
  }

  ghost function PlannedTo(l: seq<Interval>, a: int, b: int): int {
    if OneByteTail(l, a, b) then b - 1 else b
  }

  /** The description determines the plan. */
  lemma {:induction false} SegmentsUnique(l: seq<Interval>, from: int, to: int, p: seq<Interval>, q: seq<Interval>)
    requires WellFormed(l) && OriginDisjoint(l)
    requires Segments(l, from, to, p) && Segments(l, from, to, q)
    ensures p == q
    decreases |p|
  {
    if p != [] && q != [] {
      if Covered(l, from) {
        CachedUnique(l, to, p[0], q[0]);
      }
      assert p[0] == q[0];
      SegmentsUnique(l, p[0].b + 1, to, p[1..], q[1..]);
      assert p == [p[0]] + p[1..] && q == [q[0]] + q[1..];
    }
  }

  lemma OneOwner(l: seq<Interval>, x: Interval, y: Interval, k: int)
    requires OriginDisjoint(l) && x in l && y in l && x.a <= k <= x.b && y.a <= k <= y.b
    ensures x == y
  {
    var i :| 0 <= i < |l| && l[i] == x;
    var j :| 0 <= j < |l| && l[j] == y;
    ApartAt(l, i, j);
  }

  lemma CachedUnique(l: seq<Interval>, to: int, s: Interval, t: Interval)
    requires OriginDisjoint(l) && s.a == t.a && CachedSegment(l, to, s) && CachedSegment(l, to, t)
    ensures s == t
  {
    var x :| && x in l && x.a <= s.a <= x.b && s.position == x.position + s.a - x.a
             && s.b == if x.b <= to then x.b else to;
    var y :| && y in l && y.a <= t.a <= y.b && t.position == y.position + t.a - y.a
             && t.b == if y.b <= to then y.b else to;
    OneOwner(l, x, y, s.a);
  }

  // ----- the loops produce that plan

  ghost predicate SplitAt(s: seq<Interval>, i: nat, tope: int)
    requires i <= |s|
  {
    && (forall j :: 0 <= j < i ==> s[j].b < tope)
    && (forall j :: i <= j < |s| ==> tope <= s[j].a)
  }

  lemma GapIsMissing(s: seq<Interval>, i: nat, tope: int, hi: int, to: int)
    requires i <= |s| && SplitAt(s, i, tope) && tope <= hi
    requires forall j :: i <= j < |s| ==> hi < s[j].a
    requires hi == to || (i < |s| && hi + 1 == s[i].a <= s[i].b)
    ensures MissingSegment(s, to, Missing(tope, hi))
  {
    forall k | tope <= k <= hi ensures !Covered(s, k) {
      forall iv | iv in s ensures !(iv.a <= k <= iv.b) {
        var j :| 0 <= j < |s| && s[j] == iv;
      }
    }
    if hi != to {
      assert s[i] in s;
    }
  }

  function Tail(tope: int, b: int): seq<Interval> {
    if b > tope then [Missing(tope, b)] else []
  }

  lemma NoSegments(l: seq<Interval>, to: int)
    ensures Segments(l, to + 1, to, [])
  {
  }

  lemma PrependSegment(l: seq<Interval>, from: int, to: int, x: Interval, p: seq<Interval>)
    requires x.a == from <= x.b <= to && (CachedSegment(l, to, x) || MissingSegment(l, to, x))
    requires Segments(l, x.b + 1, to, p)
    ensures Segments(l, from, to, [x] + p)
    ensures AllCached([x] + p) <==> x.position >= 0 && AllCached(p)
  {
    assert ([x] + p)[1..] == p;
    assert forall j :: 0 <= j < |p| ==> ([x] + p)[j + 1] == p[j];
  }

  ghost predicate SortedList(s: seq<Interval>) {
    WellFormed(s) && Increasing(s) && OriginDisjoint(s)
  }

  lemma SplitNext(s: seq<Interval>, i: nat, tope: int)
    requires i < |s| && SortedList(s) && SplitAt(s, i, tope)
    ensures SplitAt(s, i + 1, s[i].b + 1)
    ensures 0 <= s[i].a <= s[i].b && 0 <= s[i].position
    ensures forall j :: i <= j < |s| ==> s[i].a <= s[j].a
  {
    assert s[i] in s;
    forall j | i + 1 <= j < |s| ensures s[i].b + 1 <= s[j].a {
      assert s[j] in s;
      assert Apart(s[i], s[j]);
    }
  }

  /** The last interval decides how far the plan reaches. */
  ghost function EndFor(s: seq<Interval>, b: int): int {
    if s != [] && s[|s| - 1].b + 1 == b then b - 1 else b
  }

  lemma LastIsGreatest(s: seq<Interval>, j: nat)
    requires SortedList(s) && j < |s|
    ensures s[j].b <= s[|s| - 1].b
    ensures s[j].a <= s[|s| - 1].a <= s[|s| - 1].b
  {
    assert s[|s| - 1] in s && s[j] in s;
    if j < |s| - 1 { assert Apart(s[j], s[|s| - 1]); }
  }

  function GapBefore(tope: int, a: int): seq<Interval> {
    if tope < a then [Missing(tope, a - 1)] else []
  }

  /** A block of interval `i`, with the gap before it, in front of a finished plan. */
  lemma PrependBlock(s: seq<Interval>, i: nat, tope: int, to: int, block: Interval, rest: seq<Interval>)
    requires i < |s| && SortedList(s) && SplitAt(s, i, tope)
    requires block.a == s[i].a <= block.b <= s[i].b && block.position == s[i].position
    requires block.b == if s[i].b <= to then s[i].b else to
    requires Segments(s, block.b + 1, to, rest)
    ensures Segments(s, tope, to, GapBefore(tope, s[i].a) + [block] + rest)
    ensures AllCached(GapBefore(tope, s[i].a) + [block] + rest) <==>
            GapBefore(tope, s[i].a) == [] && AllCached(rest)
  {
    hide Increasing, OriginDisjoint, WellFormed, AllCached, Segments;
    assert s[i] in s;
    assert CachedSegment(s, to, block);
    SplitNext(s, i, tope);
    PrependSegment(s, s[i].a, to, block, rest);
    if tope < s[i].a {
      GapIsMissing(s, i, tope, s[i].a - 1, to);
      PrependSegment(s, tope, to, Missing(tope, s[i].a - 1), [block] + rest);
      assert GapBefore(tope, s[i].a) + [block] + rest == [Missing(tope, s[i].a - 1)] + ([block] + rest);
    } else {
      assert GapBefore(tope, s[i].a) + [block] + rest == [block] + rest;
    }
  }

  /** The walk from `i` with everything before `tope` planned is the plan from `tope` on. */
  ghost predicate Plans(s: seq<Interval>, tope: int, b: int, w: Progress) {
    && w.tope >= 0
    && Segments(s, tope, EndFor(s, b), w.segments + Tail(w.tope, b))
    && (w.hit && b <= w.tope <==> AllCached(w.segments + Tail(w.tope, b)))
  }

  /** The turn in which the window ends inside interval `i`. */
  lemma WalkStopsInside(s: seq<Interval>, i: nat, tope: int, b: int)
    requires i < |s| && SortedList(s) && SplitAt(s, i, tope) && 0 <= tope <= b
    requires s[i].a <= b <= s[i].b <= s[|s| - 1].b && tope <= s[i].a && 0 <= s[i].b
    ensures Plans(s, tope, b, Walk(s, i, tope, b))
  {
    hide SortedList, SplitAt, Segments, AllCached;
    var w := Walk(s, i, tope, b);
    var block := Interval(s[i].a, b, s[i].position);
    NoSegments(s, b);
    NothingCached();
    PrependBlock(s, i, tope, EndFor(s, b), block, []);
    assert w.segments + Tail(w.tope, b) == GapBefore(tope, s[i].a) + [block] + [];
  }

  /** The turn in which interval `i` lies inside the window: the rest follows it. */
  lemma WalkGoesOn(s: seq<Interval>, i: nat, tope: int, b: int, v: Progress)
    requires i < |s| && SortedList(s) && SplitAt(s, i, tope) && 0 <= tope <= s[i].a <= s[i].b < b
    requires v == Walk(s, i + 1, s[i].b + 1, b) && Plans(s, s[i].b + 1, b, v)
    ensures Plans(s, tope, b, Walk(s, i, tope, b))
  {
    hide SortedList, SplitAt, Segments, AllCached;
    var w := Walk(s, i, tope, b);
    PrependBlock(s, i, tope, EndFor(s, b), s[i], v.segments + Tail(v.tope, b));
    assert w.segments == GapBefore(tope, s[i].a) + [s[i]] + v.segments;
    assert w.segments + Tail(w.tope, b) == GapBefore(tope, s[i].a) + [s[i]] + (v.segments + Tail(v.tope, b));
  }

  /** Everything from `tope` on is missing. */
  lemma WalkEndsMissing(s: seq<Interval>, i: nat, tope: int, b: int, w: Progress)
    requires i <= |s| && SplitAt(s, i, tope) && 0 <= tope <= b && EndFor(s, b) == b
    requires forall j :: i <= j < |s| ==> b < s[j].a
    requires (w == Progress([], tope, true) && tope < b) || w == Progress([Missing(tope, b)], b + 1, false)
    ensures Plans(s, tope, b, w)
  {
    GapIsMissing(s, i, tope, b, b);
    NoSegments(s, b);
    hide SplitAt, MissingSegment, Segments;
    PrependSegment(s, tope, b, Missing(tope, b), []);
    assert [Missing(tope, b)] + [] == [Missing(tope, b)] == w.segments + Tail(w.tope, b);
  }

  lemma {:induction false} WalkPlans(s: seq<Interval>, i: nat, tope: int, b: int)
    requires i <= |s| && SortedList(s) && s != [] && SplitAt(s, i, tope) && 0 <= tope <= b
    requires i == |s| ==> tope == s[|s| - 1].b + 1
    ensures Plans(s, tope, b, Walk(s, i, tope, b))
    decreases |s| - i
  {
    hide SortedList, Segments, AllCached;
    if i == |s| {
      if b > tope {
        WalkEndsMissing(s, i, tope, b, Walk(s, i, tope, b));
      } else {
        NoSegments(s, b - 1);
        NothingCached();
        assert Walk(s, i, tope, b).segments + Tail(tope, b) == [];
      }
    } else {
      LastIsGreatest(s, i);
      LastIsGreatest(s, |s| - 1);
      SplitNext(s, i, tope);
      if b < s[i].a {
        WalkEndsMissing(s, i, tope, b, Walk(s, i, tope, b));
      } else if b <= s[i].b {
        WalkStopsInside(s, i, tope, b);
      } else {
        WalkPlans(s, i + 1, s[i].b + 1, b);
        WalkGoesOn(s, i, tope, b, Walk(s, i + 1, s[i].b + 1, b));
      }
    }
  }

  lemma NothingCached()
    ensures AllCached([])
  {
  }

  lemma SeekSplits(s: seq<Interval>, a: int)
    requires SortedList(s)
    ensures var i := Seek(s, 0, a);
            && (forall j :: 0 <= j < i ==> s[j].b < a)
            && (i < |s| && a < s[i].a ==> SplitAt(s, i, a))
  {
    var i := Seek(s, 0, a);
    if i < |s| {
      forall j | i <= j < |s| ensures s[i].a <= s[j].a {}
    }
  }

  lemma PlanSortedMeaning(s: seq<Interval>, a: int, b: int)
    requires SortedList(s) && 0 <= a <= b
    ensures var to := if s != [] && a <= s[|s| - 1].b then EndFor(s, b) else b;
            Segments(s, a, to, PlanSorted(s, a, b).segments)
    ensures PlanSorted(s, a, b).hit <==> AllCached(PlanSorted(s, a, b).segments)
  {
    var i := Seek(s, 0, a);
    SeekSplits(s, a);
    if i == |s| {
      GapIsMissing(s, i, a, b, b);
      PrependSegment(s, a, b, Missing(a, b), []);
    } else {
      LastIsGreatest(s, i);
      assert s[i] in s;
      if a < s[i].a {
        WalkPlans(s, i, a, b);
        FinishIsTail(Walk(s, i, a, b), a, b);
      } else {
        PlanFromInside(s, i, a, b);
      }
    }
  }

  lemma FinishIsTail(w: Progress, a: int, b: int)
    requires w.tope >= 0
    ensures Finish(w, a, b).segments == w.segments + Tail(w.tope, b)
    ensures Finish(w, a, b).hit <==> w.hit && b <= w.tope
  {
  }

  lemma SplitAfter(s: seq<Interval>, i: nat, a: int)
    requires i < |s| && SortedList(s) && s[i].a <= a <= s[i].b
    requires forall j :: 0 <= j < i ==> s[j].b < a
    ensures SplitAt(s, i + 1, s[i].b + 1)
  {
    forall j | i + 1 <= j < |s| ensures s[i].b + 1 <= s[j].a {
      assert s[i] in s && s[j] in s;
      assert Apart(s[i], s[j]);
    }
  }

  /** The window begins inside interval `i`. */
  lemma PlanFromInside(s: seq<Interval>, i: nat, a: int, b: int)
    requires SortedList(s) && 0 <= a <= b && i < |s| && i == Seek(s, 0, a)
    requires s[i].a <= a <= s[i].b <= s[|s| - 1].b && 0 <= s[i].position
    requires forall j :: 0 <= j < i ==> s[j].b < a
    ensures Segments(s, a, EndFor(s, b), PlanSorted(s, a, b).segments)
    ensures PlanSorted(s, a, b).hit <==> AllCached(PlanSorted(s, a, b).segments)
  {
    hide SortedList, Segments, AllCached, CachedSegment, SplitAt;
    var first := Interval(a, if b <= s[i].b then b else s[i].b, s[i].position + a - s[i].a);
    FirstIsCached(s, i, first, EndFor(s, b));
    if b <= s[i].b {
      NoSegments(s, b);
      NothingCached();
      PrependSegment(s, a, EndFor(s, b), first, []);
      assert [first] + [] == [first];
    } else {
      var w := Walk(s, i + 1, s[i].b + 1, b);
      SplitAfter(s, i, a);
      WalkPlans(s, i + 1, s[i].b + 1, b);
      PrependSegment(s, a, EndFor(s, b), first, w.segments + Tail(w.tope, b));
      FinishIsTail(w.(segments := [first] + w.segments), a, b);
      assert [first] + (w.segments + Tail(w.tope, b)) == [first] + w.segments + Tail(w.tope, b);
    }
  }

  lemma FirstIsCached(s: seq<Interval>, i: nat, first: Interval, to: int)
    requires i < |s| && s[i].a <= first.a <= s[i].b && first.position == s[i].position + first.a - s[i].a
    requires first.b == if s[i].b <= to then s[i].b else to
    ensures CachedSegment(s, to, first)
  {
    assert s[i] in s;
  }

  lemma {:induction false} SegmentsReorder(l: seq<Interval>, m: seq<Interval>, from: int, to: int, p: seq<Interval>)
    requires SameEntries(l, m) && Segments(l, from, to, p)
    ensures Segments(m, from, to, p)
    decreases |p|
  {
    if p != [] {
      SegmentsReorder(l, m, p[0].b + 1, to, p[1..]);
      assert forall k :: Covered(l, k) <==> Covered(m, k);
      if CachedSegment(l, to, p[0]) {
        var iv :| && iv in l && iv.a <= p[0].a <= iv.b && p[0].position == iv.position + p[0].a - iv.a
                   && p[0].b == if iv.b <= to then iv.b else to;
        assert iv in m;
      }
    }
  }

  /** The plan of a window over a valid list is the one the description asks for, and it is
      a hit exactly when no segment is missing. The plan reaches the last byte of the window
      except when that byte is alone behind everything stored: then it stops one short. */
  lemma PlanMeaning(l: seq<Interval>, a: int, b: int)
    requires WellFormed(l) && OriginDisjoint(l) && 0 <= a <= b
    ensures Segments(l, a, PlannedTo(l, a, b), WorkPlan(l, a, b).segments)
    ensures WorkPlan(l, a, b).hit <==> AllCached(WorkPlan(l, a, b).segments)
    ensures WorkPlan(l, a, b).segments != []
  {
    var s := SortedByA(l);
    SortedIsIncreasing(l);
    SortKeepsDisjoint(l);
    PlanSortedMeaning(s, a, b);
    var to := if s != [] && a <= s[|s| - 1].b then EndFor(s, b) else b;
    SegmentsReorder(s, l, a, to, WorkPlan(l, a, b).segments);
    GreatestEnd(l, s, a, b);
  }

  lemma GreatestEnd(l: seq<Interval>, s: seq<Interval>, a: int, b: int)
    requires SameEntries(l, s) && SortedList(s)
    ensures PlannedTo(l, a, b) == if s != [] && a <= s[|s| - 1].b then EndFor(s, b) else b
  {
    if s != [] {
      var last := s[|s| - 1];
      assert last in s;
      forall iv | iv in l ensures iv.b <= last.b {
        var j :| 0 <= j < |s| && s[j] == iv;
        LastIsGreatest(s, j);
      }
    } else {
      FirstIsEntry(l);
    }
  }

  /** Reloading a list in another order leads to the same plan. */
  lemma PlanForgetsOrder(l: seq<Interval>, m: seq<Interval>, a: int, b: int)
    requires SameEntries(l, m) && WellFormed(l) && OriginDisjoint(l) && OriginDisjoint(m)
    ensures WorkPlan(l, a, b) == WorkPlan(m, a, b)
  {
    SortForgetsOrder(l, m);
  }

  // ----- the bytes a plan reaches

  ghost predicate Planned(p: seq<Interval>, k: int) {
    exists s :: s in p && s.a <= k <= s.b
  }

  lemma {:induction false} SegmentsReach(l: seq<Interval>, from: int, to: int, p: seq<Interval>)
    requires Segments(l, from, to, p)
    ensures forall k :: Planned(p, k) <==> from <= k <= to
    decreases |p|
  {
    if p != [] {
      SegmentsReach(l, p[0].b + 1, to, p[1..]);
      assert p == [p[0]] + p[1..];
      assert forall k :: Planned(p, k) <==> p[0].a <= k <= p[0].b || Planned(p[1..], k);
      SegmentsBound(l, p[0].b + 1, to, p[1..]);
    }
  }

  lemma SegmentsBound(l: seq<Interval>, from: int, to: int, p: seq<Interval>)
    requires Segments(l, from, to, p)
    ensures from <= to + 1
  {
  }

  /** The plan reaches every byte of the window if and only if the window does not end
      exactly one byte behind everything stored. */
  lemma WindowCoveredIff(l: seq<Interval>, a: int, b: int)
    requires WellFormed(l) && OriginDisjoint(l) && 0 <= a <= b
    ensures (forall k :: a <= k <= b ==> Planned(WorkPlan(l, a, b).segments, k)) <==> !OneByteTail(l, a, b)
  {
    PlanMeaning(l, a, b);
    SegmentsReach(l, a, PlannedTo(l, a, b), WorkPlan(l, a, b).segments);
    assert OneByteTail(l, a, b) ==> !Planned(WorkPlan(l, a, b).segments, b);
  }

  /** Such a window is even reported as a hit: ten bytes stored, eleven asked for. */
  lemma OneByteTailExample()
    ensures var l := [Interval(0, 9, 0)];
            WorkPlan(l, 0, 10) == Plan(l, true) && OneByteTail(l, 0, 10)
  {
    var l := [Interval(0, 9, 0)];
    assert l[1..] == [];
    assert SortedByA(l[1..]) == [];
    assert SortedByA(l) == l;
    assert l[0] in l;
  }
}
