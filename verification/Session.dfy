/** One request served through the cache: ConnectionToHTTP2 from the moment the row of the
    file is read until it is written for the last time. */
module Session {
  import opened Intervals
  import opened RangeWork
  import opened RangeText
  import opened CacheFile
  import opened Blocks
  import opened Ledger

  /** MAXRECV: bytes read from disk at a time. */
  const MAXRECV: nat := 14600

  /** The list a row stands for: an unreadable one is reset to the empty list. */
  function RowList(rg: string, pos: string): seq<Interval> {
    var loaded := Load(rg, pos);
    if loaded.ok then loaded.list else []
  }

  /** is_all_hit: nothing from `from` on is missing. */
  method IsAllHit(l: seq<Interval>, from: nat) returns (all: bool)
    requires from <= |l|
    ensures all <==> AllCached(l[from..])
  {
    var i := from;
    while i < |l|
      invariant from <= i <= |l|
      invariant forall j :: from <= j < i ==> l[j].position >= 0
    {
      if l[i].position < 0 {
        assert l[from..][i - from] == l[i];
        return false;
      }
      i := i + 1;
    }
    all := true;
  }

  /** An empty row names nothing, so nothing can contradict it. */
  lemma EmptyRow(data: string, durable: string, pending: set<(int, char)>, origin: Origin)
    ensures RowList("", "") == [] && Layout([]) && CrashSafe([], durable, pending, origin)
    ensures Coherent([], data, origin) && Extends([], [])
  {
    LoadOfText([]);
  }

  lemma EmptyPlan(a: int, b: int)
    ensures SortedByA([]) == [] && !WorkPlan([], a, b).hit
  {
  }

  lemma PlanIsNotEmpty(l: seq<Interval>, a: int, b: int)
    requires 0 <= a
    ensures WorkPlan(l, a, b).segments != []
  {
    var s := SortedByA(l);
    var i := Seek(s, 0, a);
    if i < |s| && a < s[i].a {
      assert Walk(s, i, a, b).segments != [];
    }
  }

  lemma SameEntriesExtend(l: seq<Interval>, m: seq<Interval>)
    requires SameEntries(l, m)
    ensures Extends(l, m)
  {
  }

  lemma SameEntriesPlan(l: seq<Interval>, m: seq<Interval>, a: int, b: int)
    requires Layout(l) && Layout(m) && SameEntries(l, m)
    ensures WorkPlan(l, a, b) == WorkPlan(m, a, b) && PointEnd(l) == PointEnd(m)
  {
    SortForgetsOrder(l, m);
    ReorderKeepsEnd(l, m);
  }

  lemma SameEntriesSafe(l: seq<Interval>, m: seq<Interval>, durable: string, pending: set<(int, char)>, origin: Origin)
    requires SameEntries(l, m)
    ensures CrashSafe(l, durable, pending, origin) <==> CrashSafe(m, durable, pending, origin)
  {
    assert forall k, q :: Holds(l, k, q) <==> Holds(m, k, q);
    SameHoldsSameSafety(l, m, durable, pending, origin);
  }

  lemma PlannedForgetsOrder(l: seq<Interval>, m: seq<Interval>, a: int, b: int)
    requires SameEntries(l, m)
    ensures PlannedTo(l, a, b) == PlannedTo(m, a, b)
  {
    if OneByteTail(l, a, b) {
      var iv :| iv in l && a <= iv.b && b == iv.b + 1 && forall other :: other in l ==> other.b <= iv.b;
      assert iv in m;
    }
    if OneByteTail(m, a, b) {
      var iv :| iv in m && a <= iv.b && b == iv.b + 1 && forall other :: other in m ==> other.b <= iv.b;
      assert iv in l;
    }
  }

  lemma PlanRemains(l: seq<Interval>, a: int, b: int)
    requires Layout(l) && 0 <= a <= b
    ensures Remaining(l, a, PlannedTo(l, a, b), WorkPlan(l, a, b).segments)
    ensures WorkPlan(l, a, b).hit <==> AllCached(WorkPlan(l, a, b).segments)
  {
    PlanMeaning(l, a, b);
    SegmentsRemain(l, a, PlannedTo(l, a, b), WorkPlan(l, a, b).segments);
  }

  /** The plan is a hit if and only if the list knows all that is planned. */
  lemma HitMeans(l: seq<Interval>, a: int, b: int)
    requires Layout(l) && 0 <= a <= b
    ensures WorkPlan(l, a, b).hit <==> Knows(l, a, PlannedTo(l, a, b) + 1)
  {
    PlanMeaning(l, a, b);
    PlanRemains(l, a, b);
    RestDecides(l, a, PlannedTo(l, a, b), WorkPlan(l, a, b).segments);
  }

  lemma RemainingNext(l: seq<Interval>, from: int, to: int, rest: seq<Interval>)
    requires Remaining(l, from, to, rest) && rest != []
    ensures Remaining(l, rest[0].b + 1, to, rest[1..])
  {
  }

  /** What a placed segment says about the plan it came from. */
  lemma AllCachedOrWriting(rest: seq<Interval>, placed: seq<Interval>, bwrite: bool)
    requires rest != [] && (bwrite <==> rest[0].position < 0) && (!bwrite ==> placed == rest)
    ensures !bwrite && AllCached(placed) <==> AllCached(rest)
  {
  }

  lemma HeadIsWorking(l: seq<Interval>, data: string, origin: Origin, cur: Interval, done: int)
    requires Working(l, data, origin, cur, done, true) && 0 < done <= cur.Size()
    ensures Working(l, data, origin, Head(cur, done), done, true)
  {
    hide Layout, Coherent, PointEnd, Covered;
  }

  lemma SameHoldsKnowSame(l: seq<Interval>, m: seq<Interval>, from: int, to: int)
    requires forall k, q :: Holds(m, k, q) <==> Holds(l, k, q)
    ensures Knows(l, from, to) <==> Knows(m, from, to)
  {
    HoldsCovers(l);
    HoldsCovers(m);
    hide Covered, Holds;
    forall k | Covered(l, k) ensures Covered(m, k) {
      var q :| Holds(l, k, q);
      assert Holds(m, k, q);
    }
    forall k | Covered(m, k) ensures Covered(l, k) {
      var q :| Holds(m, k, q);
      assert Holds(l, k, q);
    }
  }

  lemma KnowsSame(l: seq<Interval>, m: seq<Interval>, from: int, to: int)
    requires forall k :: Covered(m, k) <==> Covered(l, k)
    ensures Knows(l, from, to) <==> Knows(m, from, to)
  {
  }

  lemma SortKeepsHolds(l: seq<Interval>)
    ensures forall k, q :: Holds(SortedByA(l), k, q) <==> Holds(l, k, q)
  {
  }

  // ----- where a call ends in its plan

  /** Offset `x` lies inside a segment the request fetches itself, behind its first byte and
      not behind its last; from segment `i` on, which is its own if `own` says so. */
  ghost predicate InsideOwn(p: seq<Interval>, i: nat, own: bool, x: int) {
    exists j :: i <= j < |p| && p[j].a < x <= p[j].b && (if j == i then own else p[j].position < 0)
  }

  ghost predicate Ordered(p: seq<Interval>, i: nat) {
    forall u, v :: i <= u < v < |p| ==> p[u].b < p[v].a
  }

  lemma InsideOwnAt(p: seq<Interval>, i: nat, own: bool, c: nat, x: int)
    requires Ordered(p, i) && i <= c < |p| && p[c].a < x <= p[c].b + 1
    requires forall j :: i <= j < |p| ==> p[j].a <= p[j].b
    ensures InsideOwn(p, i, own, x) <==> x <= p[c].b && if c == i then own else p[c].position < 0
  {
    if InsideOwn(p, i, own, x) {
      var j :| i <= j < |p| && p[j].a < x <= p[j].b && (if j == i then own else p[j].position < 0);
      assert j == c;
    }
  }

  lemma InsideOwnOfPlaced(p: seq<Interval>, s: Interval, own: bool, x: int)
    requires p != [] && s.a == p[0].a && s.b == p[0].b
    ensures InsideOwn(p[0 := s], 0, own, x) <==> InsideOwn(p, 0, own, x)
  {
    if InsideOwn(p, 0, own, x) {
      var j :| 0 <= j < |p| && p[j].a < x <= p[j].b && (if j == 0 then own else p[j].position < 0);
      assert p[0 := s][j].a < x;
    }
  }

  lemma {:induction false} RemainingOrdered(l: seq<Interval>, from: int, to: int, rest: seq<Interval>)
    requires Remaining(l, from, to, rest)
    ensures Ordered(rest, 0) && forall j :: 0 <= j < |rest| ==> from <= rest[j].a <= rest[j].b
    decreases |rest|
  {
    hide Holds, Covered;
    if rest != [] {
      var tail := rest[1..];
      RemainingOrdered(l, rest[0].b + 1, to, tail);
      assert forall j :: 0 < j < |rest| ==> rest[j] == tail[j - 1];
    }
  }

  lemma OrderedFront(p: seq<Interval>, i: nat, t: seq<Interval>)
    requires i < |p| && t == p[i + 1..] && Ordered(t, 0) && p[i].a <= p[i].b
    requires forall j :: 0 <= j < |t| ==> p[i].b + 1 <= t[j].a <= t[j].b
    ensures Ordered(p, i) && forall j :: i <= j < |p| ==> p[j].a <= p[j].b
  {
    assert forall j :: i < j < |p| ==> p[j] == t[j - i - 1];
  }

  /** The list tells how far a window `a..b` goes without knowing the object's size: it has
      nothing of the window, or something at its end or behind. */
  ghost predicate Foreseeable(l: seq<Interval>, a: int, b: int) {
    b > 0 && ((forall iv :: iv in l ==> iv.b < a) || exists iv :: iv in l && b <= iv.b)
  }

  lemma ExtremeForesees(l: seq<Interval>, e: int, a: int, b: int)
    requires IsExtreme(l, e) && 0 <= a
    ensures Foreseeable(l, a, b) <==> b > 0 && (e < a || b <= e)
  {
    if e >= a {
      var iv :| iv in l && iv.b == e;
    }
  }

  class Session {
    const file: File
    ghost const origin: Origin

    var lranges: seq<Interval>
    var lrangeswork: seq<Interval>
    var brange: nat
    var acumulate: int
    var limit: int
    var bwrite: bool
    var hit: bool
    var miss2hit: bool
    var matched: bool
    var filesended: int
    var oldfilesended: int
    var filesizeneto: int
    var rangeMin: int
    var rangeMax: int
    var countWait: int
    var timerecord: int
    var hasUpdate: bool

    /** Size of the whole object as the row knows it (0: unknown), and how Cache changed the
        window because of it. */
    var sizeOrig: int
    var flagChangeTop: bool
    var flagTruncateTop: bool
    var flagTruncateOld: int

    /** The accounts of the file and the browser's address. */
    var users: seq<UserCache>
    var ip: string

    /** The row: its two range columns, its users column, and the later of `modified` and
        `last_request`. */
    var rg: string
    var pos: string
    var usersText: string
    var touched: int

    /** The list the row stands for. */
    ghost var saved: seq<Interval>
    /** Last origin byte of the plan. */
    ghost var planEnd: int
    /** The list the request found. */
    ghost var loaded: seq<Interval>
    /** The accounts the request found, and their text in the row. */
    ghost var was: seq<UserCache>
    ghost var foundText: string

    // ----- invariants

    /** The row survives a crash at any moment. */
    ghost predicate RowSafe()
      reads `saved, `rg, `pos, file`durable, file`pending
    {
      && saved == RowList(rg, pos) && Layout(saved)
      && CrashSafe(saved, file.durable, file.pending, origin)
    }

    /** Nothing is on its way to the disk. */
    ghost predicate AllOut()
      reads file`data, file`durable, file`pending
    {
      file.durable == file.data && file.pending == {}
    }

    /** The users column is as it was found, or tells the accounts after the browser was
        billed what it was served up to the last save. */
    ghost predicate TextBilled()
      reads `ip, `users, `was, `usersText, `foundText, `oldfilesended, `touched
    {
      usersText == foundText || (usersText == LedgerText(users) && Billed(was, users, ip, touched, oldfilesended, 0))
    }

    /** What the browser was billed, and how long ago the row was touched. */
    ghost predicate Accounts()
      reads `ip, `users, `was, `usersText, `foundText, `oldfilesended, `countWait, `touched, `timerecord
    {
      && ip != "" && TextBilled()
      && ((users == was && oldfilesended == 0) || Billed(was, users, ip, touched, oldfilesended, 0))
      && 0 <= countWait && touched + 2 * countWait <= timerecord
    }

    /** The list is valid, agrees with the file, and has forgotten nothing. */
    ghost predicate ListSound()
      reads `lranges, `loaded, `saved, file`data
    {
      && Layout(lranges) && Coherent(lranges, file.data, origin)
      && Extends(loaded, saved) && Extends(saved, lranges)
    }

    /** Everything the list names has left the process. Between a block's last byte and the
        seek, flush or close that follows it, this is not so. */
    ghost predicate ListSafe()
      reads `lranges, file`durable, file`pending
    {
      CrashSafe(lranges, file.durable, file.pending, origin)
    }

    ghost predicate WindowSet()
      reads `rangeMin, `rangeMax, `planEnd, `filesizeneto
    {
      0 <= rangeMin && planEnd <= rangeMax && filesizeneto == rangeMax - rangeMin + 1
    }

    /** What moving through the plan does not touch. */
    ghost predicate Steady()
      reads `ip, `users, `was, `usersText, `foundText, `oldfilesended, `countWait, `touched, `timerecord
      reads `rangeMin, `rangeMax, `planEnd, `filesizeneto, `saved, `rg, `pos, file`durable, file`pending
    {
      RowSafe() && Accounts() && WindowSet() && 0 <= oldfilesended
    }

    /** Holds from the start of the body to its end. */
    ghost predicate Sound()
      reads this, file
    {
      Steady() && ListSound() && oldfilesended <= filesended && (hit ==> oldfilesended == 0)
    }

    /** Ready for the first part of the body. */
    ghost predicate AtStart()
      reads this, file
    {
      && Sound() && ListSafe() && !file.isOpen && lrangeswork != []
      && filesended == 0 && acumulate == 0 && !miss2hit
      && Remaining(lranges, rangeMin, planEnd, lrangeswork)
      && Remaining(loaded, rangeMin, planEnd, lrangeswork)
      && (hit <==> AllCached(lrangeswork))
    }

    /** What is left of the plan, from `brange` on. */
    ghost predicate PlanLeft()
      reads `lranges, `loaded, `lrangeswork, `brange, `planEnd, `rangeMin, `filesended, `hit, `miss2hit
    {
      && brange <= |lrangeswork|
      && Remaining(lranges, rangeMin + filesended, planEnd, lrangeswork[brange..])
      && Remaining(loaded, rangeMin + filesended, planEnd, lrangeswork[brange..])
      && (hit || miss2hit ==> AllCached(lrangeswork[brange..]))
      && Knows(lranges, rangeMin, rangeMin + filesended)
    }

    /** Between two segments: the plan from `brange` on is still to be served. */
    ghost predicate Between()
      reads this, file
    {
      Sound() && PlanLeft() && acumulate == 0
    }

    /** The cursor is in segment `brange`, possibly behind its last byte. */
    ghost predicate Cursor()
      reads `lranges, `lrangeswork, `brange, `acumulate, `bwrite, `limit, `filesended, `rangeMin, `loaded, `planEnd
      reads `hit, `miss2hit, file`isOpen, file`data, file`offset
    {
      && file.isOpen && brange < |lrangeswork|
      && var cur := lrangeswork[brange];
      && Working(lranges, file.data, origin, cur, acumulate, bwrite)
      && limit == cur.Size() && 0 <= acumulate <= limit
      && filesended == cur.a - rangeMin + acumulate
      && file.offset == cur.position + acumulate
      && Remaining(lranges, cur.b + 1, planEnd, lrangeswork[brange + 1..])
      && Remaining(loaded, cur.b + 1, planEnd, lrangeswork[brange + 1..])
      && (hit || miss2hit ==> !bwrite && AllCached(lrangeswork[brange..]))
      && Knows(lranges, rangeMin, cur.a)
    }

    /** Inside a segment. */
    ghost predicate InSegment()
      reads this, file
    {
      Sound() && Cursor() && ListSafe()
    }

    /** The disk serves exactly when nothing from here on is missing: while the server does,
        something from the current segment's last byte on was unknown when the request came. */
    ghost predicate Decided()
      reads `brange, `lrangeswork, `hit, `miss2hit, `loaded, `planEnd
    {
      brange < |lrangeswork| ==>
        if hit || miss2hit then Knows(loaded, lrangeswork[brange].a, planEnd + 1)
        else !Knows(loaded, lrangeswork[brange].b, planEnd + 1)
    }

    /** The cursor invariant between two calls with segments left. */
    ghost predicate Active()
      reads this, file
    {
      InSegment() && acumulate < limit && Decided()
    }

    lemma ActiveFacts()
      requires Active()
      ensures InSegment() && file.isOpen && brange < |lrangeswork| && 0 <= acumulate < limit
      ensures hit || miss2hit ==> !bwrite
    {
      hide Sound, Working, Remaining, AllCached, Knows, Decided;
    }

    lemma ActiveServes()
      requires Active()
      ensures Serving()
    {
      hide Sound, Working, Remaining, AllCached, Knows, Decided;
    }

    lemma AtStartOrActive()
      requires AtStart() || Active()
      ensures if file.isOpen then Active() else AtStart()
      ensures AtStart() ==> filesended == 0
    {
      hide Sound, Working, Remaining, AllCached, Knows, Decided;
    }

    lemma ActiveIsDecided()
      requires Active()
      ensures Decided()
    {
      hide InSegment, Decided;
    }

    lemma SegmentIsActive()
      requires InSegment() && acumulate < limit && Decided()
      ensures Active()
    {
      hide InSegment, Decided;
    }

    /** Between two calls. */
    ghost predicate Settled()
      reads this, file
    {
      Sound() && ListSafe() && ((acumulate == 0 && Knows(lranges, rangeMin, rangeMin + filesended)) || Active())
    }

    lemma SettledLengths()
      requires Settled()
      ensures filesizeneto == rangeMax - rangeMin + 1 && planEnd <= rangeMax
    {
    }

    /** More of the plan is to be served. */
    ghost predicate Serving()
      reads this, file
    {
      if file.isOpen then Active() else AtStart()
    }

    lemma ServingLengths()
      requires Serving()
      ensures !file.isOpen ==> !miss2hit && filesended == 0
      ensures Settled() && 0 <= filesended < planEnd + 1 - rangeMin
      ensures filesizeneto == rangeMax - rangeMin + 1 && planEnd <= rangeMax
    {
      hide RowSafe, Accounts, ListSound, Working, AllCached;
      if file.isOpen {
        ActiveIsBeforeEnd();
      } else {
        RemainingEnds(lranges, lrangeswork[0].b + 1, planEnd, lrangeswork[1..]);
      }
    }

    /** Who serves the next byte: the disk, if and only if it and all that follows were known
        when the request came. */
    lemma ServingDecides()
      requires Serving()
      ensures hit || miss2hit <==> Knows(loaded, rangeMin + filesended, planEnd + 1)
    {
      hide Sound, Working, Covered;
      if file.isOpen {
        hide Remaining, AllCached;
      } else {
        RestDecides(loaded, rangeMin, planEnd, lrangeswork);
      }
    }

    /** The plan is exhausted. */
    ghost predicate Exhausted()
      reads this, file
    {
      Between() && brange == |lrangeswork| && filesended == planEnd + 1 - rangeMin
    }

    /** A request for `rangeMin..rangeMax` (0 or less: to the end) of a file whose row holds
        the texts `rg`, `pos` and `usersText`, locked at time `now`. */
    constructor (file: File, ghost origin: Origin, rg: string, pos: string, usersText: string,
                 rangeMin: int, rangeMax: int, ip: string, now: int)
      requires ip != "" && 0 <= rangeMin && !file.isOpen
      ensures this.file == file && this.origin == origin && Begun()
      ensures this.rangeMin == rangeMin && this.rangeMax == rangeMax && this.ip == ip
      ensures this.rg == rg && this.pos == pos && this.usersText == usersText && touched == timerecord == now && matched
      ensures !hit && lrangeswork == [] && !flagChangeTop && !flagTruncateTop && !hasUpdate
      ensures foundText == usersText
    {
      this.file, this.origin := file, origin;
      this.rg, this.pos, this.saved, this.loaded := rg, pos, RowList(rg, pos), RowList(rg, pos);
      this.rangeMin, this.rangeMax, this.ip, this.usersText := rangeMin, rangeMax, ip, usersText;
      lranges, lrangeswork, brange, users := [], [], 0, [];
      acumulate, limit, bwrite, hit, miss2hit, matched := 0, 0, false, false, false, true;
      filesended, oldfilesended, filesizeneto := 0, 0, 0;
      countWait, timerecord, touched, hasUpdate := 0, now, now, false;
      sizeOrig, flagChangeTop, flagTruncateTop, flagTruncateOld := 0, false, false, -2;
      planEnd, was, foundText := 0, [], usersText;
    }

    lemma ExhaustedIsSettled()
      requires Exhausted() && ListSafe()
      ensures Settled() && filesended == planEnd + 1 - rangeMin && brange == |lrangeswork|
    {
      hide Sound, Remaining, AllCached;
    }

    // ----- the window of a request

    /** Nothing of the body has been served. */
    ghost predicate Begun()
      reads `filesended, `oldfilesended, `acumulate, `miss2hit, `hasUpdate, `rangeMin, `ip, `users, `was
      reads `usersText, `foundText, `countWait, `touched, `timerecord, `saved, `rg, `pos, `loaded, file`isOpen
    {
      && !file.isOpen && filesended == 0 && oldfilesended == 0 && acumulate == 0 && !miss2hit && !hasUpdate
      && 0 <= rangeMin && ip != "" && users == was && usersText == foundText
      && countWait == 0 && touched <= timerecord
      && saved == RowList(rg, pos)
      && loaded == saved
    }

    lemma BegunFacts()
      requires Begun()
      ensures loaded == RowList(rg, pos) && was == users && foundText == usersText
    {
      hide RowList;
    }

    /** The list is loaded and agrees with the file and the row. */
    ghost predicate ListLoaded()
      reads `saved, `rg, `pos, `lranges, `loaded, file`data, file`durable, file`pending
    {
      RowSafe() && Layout(lranges) && Coherent(lranges, file.data, origin) && SameEntries(loaded, lranges)
    }

    /** Either no plan has been made, or it is the plan of the current window. */
    ghost predicate PlanIsCurrent()
      reads `lranges, `lrangeswork, `hit, `rangeMin, `rangeMax, `filesizeneto, `planEnd, `loaded
    {
      lrangeswork != [] ==>
        && Plan(lrangeswork, hit) == WorkPlan(lranges, rangeMin, rangeMax)
        && filesizeneto == rangeMax - rangeMin + 1
        && planEnd == PlannedTo(loaded, rangeMin, rangeMax)
    }

    /** Plans the current window; the list is left sorted. */
    method PlanWindow()
      requires Begun() && ListLoaded() && filesizeneto == rangeMax - rangeMin + 1
      modifies `lranges, `lrangeswork, `hit, `planEnd
      ensures Begun() && ListLoaded() && PlanIsCurrent() && lrangeswork != []
      ensures lranges == SortedByA(old(lranges))
      ensures Plan(lrangeswork, hit) == WorkPlan(old(lranges), rangeMin, rangeMax)
    {
      hide Layout, Coherent, Extends, CrashSafe, RowList, Billed, WorkPlan, PlannedTo, SortedByA;
      SortKeepsLoaded(loaded, lranges, file.data, origin);
      PlanIsNotEmpty(lranges, rangeMin, rangeMax);
      lranges, lrangeswork, hit := GetRangeWork(lranges, rangeMin, rangeMax);
      planEnd := PlannedTo(loaded, rangeMin, rangeMax);
    }

    /** The row is emptied: nothing of the file is known. */
    method ClearRow()
      requires Begun() && lranges == []
      modifies `rg, `pos, `saved, `loaded
      ensures Begun() && ListLoaded() && rg == "" && pos == "" && saved == [] && loaded == []
    {
      hide Layout, Coherent, Extends, CrashSafe, RowList;
      EmptyRow(file.data, file.durable, file.pending, origin);
      rg, pos, saved, loaded := "", "", [], [];
    }

    /** Nothing is known, everything is planned to be fetched; an open window is not planned. */
    method PlanEmpty()
      requires Begun() && !hit && lrangeswork == []
      modifies `lranges, `lrangeswork, `hit, `planEnd, `filesizeneto
      ensures Begun() && !hit && lranges == []
      ensures lrangeswork == if rangeMax > 0 then WorkPlan([], rangeMin, rangeMax).segments else []
      ensures lrangeswork != [] ==>
                && Plan(lrangeswork, hit) == WorkPlan([], rangeMin, rangeMax)
                && filesizeneto == rangeMax - rangeMin + 1
                && planEnd == PlannedTo([], rangeMin, rangeMax)
    {
      hide Begun, RowList, WorkPlan, PlannedTo, SortedByA, Layout, Coherent, Extends, CrashSafe;
      EmptyPlan(rangeMin, rangeMax);
      lranges := [];
      if rangeMax > 0 {
        filesizeneto := rangeMax - rangeMin + 1;
        lranges, lrangeswork, hit := GetRangeWork(lranges, rangeMin, rangeMax);
        planEnd := PlannedTo([], rangeMin, rangeMax);
      }
    }

    /** Cache, file not on disk: everything is missing. The row is emptied; without room for
        a new file it stays as it is, and the request leaves the cache. */
    method StartNewFile(diskHasSpace: bool)
      requires Begun() && matched && !hit && lrangeswork == []
      modifies `lranges, `lrangeswork, `hit, `planEnd, `rg, `pos, `saved, `loaded, `matched, `filesizeneto
      ensures Begun() && !hit && lranges == [] && (matched <==> diskHasSpace)
      ensures lrangeswork == if rangeMax > 0 then WorkPlan([], rangeMin, rangeMax).segments else []
      ensures if diskHasSpace then ListLoaded() && PlanIsCurrent() && rg == "" && pos == "" && saved == []
              else rg == old(rg) && pos == old(pos) && saved == old(saved) && loaded == old(loaded)
    {
      hide Begun, ListLoaded, RowList, WorkPlan, PlannedTo, SortedByA;
      PlanEmpty();
      if diskHasSpace {
        ClearRow();
      } else {
        hit, matched := false, false;
      }
    }

    method LoadUsers(record: UserCache)
      requires Begun()
      modifies `users, `was
      ensures Begun() && users == LoadLedger(usersText, record).users
    {
      hide Billed, LoadLedger, PointEnd, RowList;
      var _, read := Str2LuserCache(usersText, record);
      users, was := read, read;
    }

    /** The size, the accounts and the list come out of the row; an unreadable list is
        emptied. `record` is what the record the accounts are read into held before. */
    method LoadRow(size: int, record: UserCache)
      requires Begun() && RowSafe() && Coherent(saved, file.data, origin) && lrangeswork == []
      modifies `lranges, `rg, `pos, `sizeOrig, `users, `was
      ensures Begun() && ListLoaded() && PlanIsCurrent() && lranges == loaded == old(RowList(rg, pos))
      ensures if old(Load(rg, pos).ok) then lranges == old(Load(rg, pos).list) && rg == old(rg) && pos == old(pos)
              else lranges == [] && rg == "" && pos == ""
      ensures sizeOrig == size && users == LoadLedger(usersText, record).users
    {
      hide Begun, ListLoaded, RowSafe, Coherent, LoadLedger, RowList;
      sizeOrig := size;
      LoadUsers(record);
      LoadList();
    }

    method LoadList()
      requires Begun() && RowSafe() && Coherent(saved, file.data, origin)
      modifies `lranges, `rg, `pos
      ensures Begun() && ListLoaded() && lranges == loaded == old(RowList(rg, pos))
      ensures if old(Load(rg, pos).ok) then lranges == old(Load(rg, pos).list) && rg == old(rg) && pos == old(pos)
              else lranges == [] && rg == "" && pos == ""
    {
      hide Layout, Coherent, CrashSafe, Billed, PointEnd, Load, Extends;
      var ok, list := GenerateList(rg, pos);
      lranges := list;
      if !ok {
        EmptyRow(file.data, file.durable, file.pending, origin);
        rg, pos := "", "";
        lranges := [];
      }
    }

    /** The window against the object's known size: an open one is closed at the size, one
        that overshoots is cut. */
    method FitWindow()
      requires Begun() && ListLoaded() && sizeOrig != 0 && !flagChangeTop && !flagTruncateTop
      modifies `rangeMax, `flagChangeTop, `flagTruncateTop, `flagTruncateOld, `filesizeneto
      ensures var top := if old(rangeMax) <= 0 then sizeOrig - 1 else old(rangeMax);
              && rangeMax == (if rangeMin + 1 < sizeOrig < top + 1 then sizeOrig - 1 else top)
              && flagChangeTop == (old(rangeMax) <= 0)
              && flagTruncateTop == (rangeMin + 1 < sizeOrig < top + 1)
              && (flagTruncateTop ==> flagTruncateOld == top)
              // it ends inside the object unless it starts at its last byte or behind
              && (rangeMax < sizeOrig <==> !(rangeMin + 1 >= sizeOrig && top >= sizeOrig))
      ensures Begun() && ListLoaded() && filesizeneto == rangeMax - rangeMin + 1
    {
      hide Begun, ListLoaded;
      if rangeMax <= 0 {
        flagChangeTop := true;
        rangeMax := sizeOrig - 1;
      }
      if sizeOrig > rangeMin + 1 && sizeOrig < rangeMax + 1 {
        flagTruncateTop := true;
        flagTruncateOld := rangeMax;
        rangeMax := sizeOrig - 1;
      }
      filesizeneto := rangeMax - rangeMin + 1;
    }

    /** Cache, file on disk with a row: `size` is the object's size as the row knows it, 0
        when unknown. The window is planned unless the list cannot tell yet how far it goes. */
    method ReadRow(size: int, record: UserCache)
      requires Begun() && RowSafe() && Coherent(saved, file.data, origin) && lrangeswork == []
      requires !flagChangeTop && !flagTruncateTop
      modifies `lranges, `lrangeswork, `hit, `planEnd, `rg, `pos, `users, `was
      modifies `sizeOrig, `rangeMax, `flagChangeTop, `flagTruncateTop, `flagTruncateOld, `filesizeneto
      ensures Begun() && ListLoaded() && PlanIsCurrent()
      ensures var top := if size != 0 && old(rangeMax) <= 0 then size - 1 else old(rangeMax);
              var cut := size != 0 && rangeMin + 1 < size < top + 1;
              && rangeMax == (if cut then size - 1 else top)
              && flagChangeTop == (size != 0 && old(rangeMax) <= 0)
              && flagTruncateTop == cut && (cut ==> flagTruncateOld == top)
      ensures lrangeswork != [] <==> size != 0 || Foreseeable(loaded, rangeMin, rangeMax)
      ensures lrangeswork == [] ==> !hit
      ensures users == LoadLedger(usersText, record).users
      ensures sizeOrig == size && loaded == old(RowList(rg, pos))
    {
      hide Begun, ListLoaded, PlanIsCurrent, WorkPlan, SortedByA, LoadLedger, Foreseeable;
      LoadRow(size, record);
      if sizeOrig != 0 {
        FitWindow();
        PlanWindow();
      } else {
        PlanIfKnown();
      }
    }

    method PlanIfKnown()
      requires Begun() && ListLoaded() && lrangeswork == [] && lranges == loaded
      modifies `lranges, `lrangeswork, `hit, `planEnd, `filesizeneto
      ensures Begun() && ListLoaded() && PlanIsCurrent() && (lrangeswork == [] ==> !hit)
      ensures lrangeswork != [] <==> Foreseeable(loaded, rangeMin, rangeMax)
    {
      hide Layout, Coherent, Extends, CrashSafe, RowList, Billed, WorkPlan, PlannedTo, SortedByA, IsExtreme, Foreseeable, PointEnd;
      if rangeMax > 0 {
        filesizeneto := rangeMax - rangeMin + 1;
      }
      var extreme := GetExtremeB(lranges);
      ExtremeForesees(lranges, extreme, rangeMin, rangeMax);
      if rangeMax > 0 && (extreme < rangeMin || rangeMax <= extreme) {
        PlanWindow();
      } else {
        hit := false;
      }
    }

    /** ReadHeader, a partial answer for an object of unknown size: `total` is the size its
        Content-Range names, 0 for none. */
    method ReadTotal(total: int)
      requires PlanIsCurrent() && sizeOrig == 0 && (rangeMax <= 0 ==> lrangeswork == [])
      modifies `sizeOrig, `rangeMax
      ensures PlanIsCurrent() && sizeOrig == total
      ensures rangeMax == if old(rangeMax) <= 0 then total - 1 else old(rangeMax)
    {
      hide WorkPlan, PlannedTo;
      sizeOrig := total;
      if rangeMax <= 0 {
        rangeMax := sizeOrig - 1;
      }
    }

    /** The object's size as Cache2 leaves it: what the announcement says, when the window
        was open or came from the size. */
    ghost function SizeAfter(cl: int): int
      reads this
    {
      if (sizeOrig == 0 && rangeMax <= 0) || flagChangeTop || flagTruncateTop then cl + rangeMin else sizeOrig
    }

    /** The window becomes the `cl` bytes the server announced; a plan of another window goes. */
    method MoveWindow(cl: int)
      requires PlanIsCurrent()
      modifies `rangeMax, `lrangeswork, `sizeOrig, `filesizeneto
      ensures rangeMax == rangeMin + cl - 1 && filesizeneto == cl
      ensures sizeOrig == old(SizeAfter(cl))
      ensures PlanIsCurrent()
    {
      hide WorkPlan, PlannedTo;
      if (sizeOrig == 0 && rangeMax <= 0) || flagChangeTop || flagTruncateTop {
        if flagTruncateTop {
          rangeMax := flagTruncateOld;
          lrangeswork := [];
        }
        if flagChangeTop {
          rangeMax := cl - 1;
          lrangeswork := [];
        }
        sizeOrig := cl + rangeMin;
      }
      if rangeMax <= 0 {
        rangeMax := cl + rangeMin - 1;
        lrangeswork := [];
      } else if rangeMax != cl + rangeMin - 1 {
        rangeMax := cl + rangeMin - 1;
        lrangeswork := [];
      }
      filesizeneto := cl;
    }

    /** Cache2: whatever Cache did to the window, it is now the `cl` bytes from rangeMin on
        and the plan is the plan of that window. */
    method Cache2(cl: int)
      requires Begun() && ListLoaded() && PlanIsCurrent()
      modifies `lranges, `lrangeswork, `hit, `planEnd, `rangeMax, `sizeOrig, `filesizeneto
      ensures Begun() && ListLoaded() && PlanIsCurrent()
      ensures rangeMax == rangeMin + cl - 1 && filesizeneto == cl
      ensures sizeOrig == old(SizeAfter(cl))
      ensures lrangeswork != [] && Plan(lrangeswork, hit) == WorkPlan(lranges, rangeMin, rangeMax)
      ensures forall k, q :: Holds(lranges, k, q) <==> old(Holds(lranges, k, q))
    {
      hide Layout, Coherent, Extends, CrashSafe, RowList, Billed, WorkPlan, PlannedTo, SortedByA, Holds;
      SortKeepsHolds(lranges);
      MoveWindow(cl);
      if lrangeswork == [] {
        PlanWindow();
      }
    }

    /** A planned window is ready to be served. */
    lemma PlannedIsAtStart()
      requires Begun() && ListLoaded() && PlanIsCurrent() && lrangeswork != [] && rangeMin <= rangeMax
      ensures AtStart() && planEnd == PlannedTo(loaded, rangeMin, rangeMax)
    {
      hide Layout, Coherent, Extends, CrashSafe, RowList, Billed, PointEnd, WorkPlan, AllCached, Remaining, OneByteTail;
      PlanRemains(lranges, rangeMin, rangeMax);
      PlanRemains(loaded, rangeMin, rangeMax);
      SameEntriesPlan(loaded, lranges, rangeMin, rangeMax);
      SameEntriesSafe(loaded, lranges, file.durable, file.pending, origin);
      SameEntriesExtend(saved, lranges);
      SameEntriesExtend(saved, saved);
      PlannedForgetsOrder(loaded, lranges, rangeMin, rangeMax);
    }

    // ----- moving from segment to segment

    /** The seek to a segment leaves nothing in the buffer. */
    method SeekTo(position: nat)
      requires Sound()
      modifies file`offset, file`durable, file`pending
      ensures Sound() && ListSafe() && file.offset == position
    {
      hide Accounts, WindowSet, RowList, CrashSafe, Layout, Coherent, Extends;
      FlushIsCrashSafe(saved, lranges, file.data, origin);
      file.LongSeek(position);
    }

    /** Enters segment `brange`: a missing one is placed at the end of the file. */
    method EnterSegment()
      requires Between() && file.isOpen && brange < |lrangeswork|
      modifies `lrangeswork, `bwrite, `limit, file`offset, file`durable, file`pending
      ensures InSegment() && acumulate == 0 < limit
      ensures lrangeswork == old(lrangeswork[brange := Placed(lranges, lrangeswork[brange])])
      ensures bwrite <==> old(lrangeswork[brange].position < 0)
    {
      hide Steady, ListSound, ListSafe, Working, Remaining, Knows, AllCached;
      EnterFacts();
      bwrite := false;
      if lrangeswork[brange].position < 0 {
        var end := GetPointEnd(lranges);
        lrangeswork := lrangeswork[brange := lrangeswork[brange].(position := end)];
        bwrite := true;
      }
      SeekTo(lrangeswork[brange].position);
      limit := lrangeswork[brange].b - lrangeswork[brange].a + 1;
    }

    lemma EnterFacts()
      requires Between() && brange < |lrangeswork|
      ensures var s := Placed(lranges, lrangeswork[brange]);
              && Working(lranges, file.data, origin, s, 0, lrangeswork[brange].position < 0)
              && s.a == rangeMin + filesended <= s.b && 0 <= s.position
              && Remaining(lranges, s.b + 1, planEnd, lrangeswork[brange + 1..])
              && Remaining(loaded, s.b + 1, planEnd, lrangeswork[brange + 1..])
              && lrangeswork[brange := s][brange + 1..] == lrangeswork[brange + 1..]
      ensures hit || miss2hit ==> lrangeswork[brange].position >= 0
    {
      hide RowSafe, Accounts, Extends, Working, Remaining, Knows;
      var rest := lrangeswork[brange..];
      assert rest[0] == lrangeswork[brange] && rest[1..] == lrangeswork[brange + 1..];
      EnterBlock(lranges, file.data, origin, rangeMin + filesended, planEnd, rest);
      RemainingNext(loaded, rangeMin + filesended, planEnd, rest);
    }

    /** The current segment is finished: a block of its own enters the list. */
    method FinishSegment()
      requires InSegment() && acumulate == limit
      modifies `lranges, `acumulate, `brange
      ensures !old(bwrite) || AllOut() ==> ListSafe()
      ensures Between() && filesended == old(filesended) && brange == old(brange) + 1 <= |lrangeswork| && acumulate == 0
      ensures brange == |lrangeswork| ==> Exhausted()
      ensures lranges == if old(bwrite) then Appended(old(lranges), lrangeswork[old(brange)]) else old(lranges)
    {
      hide InSegment, Sound, Between, Exhausted, ListStays, PlanGoesOn, PointEnd, Appended;
      SegmentInPlan();
      var l := lranges;
      if bwrite {
        l := AppendNode(lranges, lrangeswork[brange]);
      }
      FinishFacts(l);
      Advance(l);
      EndOfPlan();
    }

    /** The cursor moves behind a finished segment; the list has grown to `l`. */
    method Advance(l: seq<Interval>)
      requires Sound() && brange < |lrangeswork|
      requires ListStays(l) && PlanGoesOn(l)
      modifies `lranges, `acumulate, `brange
      ensures Between() && brange == old(brange) + 1 && lranges == l && acumulate == 0
    {
      hide Steady, Layout, Coherent, Extends, Remaining, Knows, AllCached;
      lranges, acumulate, brange := l, 0, brange + 1;
    }

    lemma EndOfPlan()
      requires Between()
      ensures brange == |lrangeswork| ==> Exhausted()
    {
      hide Sound, Knows, AllCached;
    }

    /** The list may become `m`. */
    ghost predicate ListStays(m: seq<Interval>)
      reads `loaded, `saved, file`data
    {
      Layout(m) && Coherent(m, file.data, origin) && Extends(loaded, saved) && Extends(saved, m)
    }

    /** With the list `m`, the plan goes on behind the current segment. */
    ghost predicate PlanGoesOn(m: seq<Interval>)
      reads `loaded, `lrangeswork, `brange, `planEnd, `rangeMin, `filesended, `hit, `miss2hit
      requires brange < |lrangeswork|
    {
      && Remaining(m, rangeMin + filesended, planEnd, lrangeswork[brange + 1..])
      && Remaining(loaded, rangeMin + filesended, planEnd, lrangeswork[brange + 1..])
      && (hit || miss2hit ==> AllCached(lrangeswork[brange + 1..]))
      && Knows(m, rangeMin, rangeMin + filesended)
    }

    lemma SegmentInPlan()
      requires InSegment()
      ensures brange < |lrangeswork|
    {
      hide Sound, Working, Remaining, AllCached, Knows;
    }

    lemma FinishFacts(m: seq<Interval>)
      requires InSegment() && acumulate == limit
      requires m == (if bwrite then Appended(lranges, lrangeswork[brange]) else lranges)
      ensures Sound() && brange < |lrangeswork| && ListStays(m) && PlanGoesOn(m)
      ensures !bwrite || AllOut() ==> CrashSafe(m, file.durable, file.pending, origin)
    {
      hide Steady, RowSafe, Accounts, WindowSet, Layout, Coherent, PointEnd, Covered, Holds, Appended;
      ghost var cur := lrangeswork[brange];
      ghost var rest := lrangeswork[brange + 1..];
      assert forall j :: 0 <= j < |rest| ==> rest[j] == lrangeswork[brange..][j + 1];
      if bwrite {
        FinishBlock(lranges, file.data, origin, cur);
        FlushIsCrashSafe(m, m, file.data, origin);
        RemainingStays(lranges, Appended(lranges, cur), cur.b + 1, planEnd, rest);
      } else {
        LocatedIsKnown(lranges, cur);
      }
    }

    /** Buffered bytes leave the process. */
    method FlushFile()
      requires Sound()
      modifies file`durable, file`pending
      ensures Sound() && AllOut() && ListSafe()
    {
      hide Accounts, WindowSet, Layout, Coherent, Extends, CrashSafe, RowList;
      FlushIsCrashSafe(saved, lranges, file.data, origin);
      file.Flush();
    }

    method FlushInSegment()
      requires InSegment()
      modifies file`durable, file`pending
      ensures InSegment() && AllOut() && brange < |lrangeswork| && file.isOpen
    {
      hide Sound, Working, Remaining, AllCached, Knows;
      FlushFile();
    }

    method FlushActive()
      requires Active()
      modifies file`durable, file`pending
      ensures Active() && AllOut() && brange < |lrangeswork|
    {
      hide InSegment, Decided;
      FlushInSegment();
    }

    /** Body bytes go to the file at the cursor. */
    method WriteBody(d: string)
      requires InSegment() && acumulate + |d| <= limit
      requires forall i :: 0 <= i < |d| ==> d[i] == origin(rangeMin + filesended + i)
      modifies `acumulate, `filesended, file
      ensures InSegment() && acumulate == old(acumulate) + |d| && filesended == old(filesended) + |d|
      ensures file.isOpen && brange < |lrangeswork|
    {
      hide Accounts, WindowSet, RowList, Layout, Coherent, Extends, CrashSafe, Remaining, AllCached, Knows, Overwritten, WriteSet, Working;
      WriteFacts(d);
      file.Write(d);
      acumulate, filesended := acumulate + |d|, filesended + |d|;
    }

    lemma WriteFacts(d: string)
      requires InSegment() && acumulate + |d| <= limit
      requires forall i :: 0 <= i < |d| ==> d[i] == origin(rangeMin + filesended + i)
      ensures brange < |lrangeswork|
      ensures var data, pending := Overwritten(file.data, file.offset, d), file.pending + WriteSet(file.offset, d);
              && Working(lranges, data, origin, lrangeswork[brange], acumulate + |d|, bwrite)
              && Coherent(lranges, data, origin) && CrashSafe(saved, file.durable, pending, origin)
              && CrashSafe(lranges, file.durable, pending, origin)
    {
      hide Accounts, WindowSet, RowList, Layout, Coherent, Extends, CrashSafe, Remaining, AllCached, Knows, Overwritten, WriteSet, Working;
      ghost var cur := lrangeswork[brange];
      WriteBlock(lranges, file.data, origin, cur, acumulate, bwrite, d);
      SameEntriesExtend(lranges, lranges);
      WriteIsCrashSafe(lranges, lranges, file.durable, file.pending, file.data, origin, cur, acumulate, bwrite, d);
      WriteIsCrashSafe(saved, lranges, file.durable, file.pending, file.data, origin, cur, acumulate, bwrite, d);
    }

    /** Writes the list into the row and books `bytes` on the browser's account. */
    method SaveRow(bytes: int, now: int)
      requires Layout(lranges) && ip != "" && now > 0
      modifies `rg, `pos, `usersText, `touched, `users, `saved
      ensures rg == RangesText(lranges) && pos == PositionsText(lranges) && touched == now
      ensures usersText == LedgerText(users)
      ensures saved == RowList(rg, pos) && Layout(saved)
      ensures Extends(loaded, old(saved)) && Extends(old(saved), lranges) ==> Extends(loaded, saved)
      ensures forall k :: Covered(saved, k) <==> Covered(lranges, k)
      ensures Extends(saved, lranges) && forall k, q :: Holds(saved, k, q) <==> Holds(lranges, k, q)
      ensures users == Credited(old(users), ip, now, bytes, false)
    {
      hide LedgerText, IndexOf, Holds, Covered, Layout, Credited, RangesText, PositionsText;
      RowRoundTrip(lranges);
      rg, pos := List2String(lranges);
      var _, credited := AddUserCache(users, ip, now, bytes, false);
      users := credited;
      usersText := LuserCache2Str(users);
      touched := now;
      saved := RowList(rg, pos);
      HoldsCovers(saved);
      HoldsCovers(lranges);
    }

    /** The written part of the current block enters the list; the rest stays current. */
    method CutBlock()
      requires Active() && bwrite && 0 < acumulate && AllOut()
      modifies `lranges, `lrangeswork, `acumulate, `limit
      ensures Active() && acumulate == 0
      ensures lranges == Appended(old(lranges), Head(old(lrangeswork[brange]), old(acumulate)))
      ensures lrangeswork == old(lrangeswork[brange := Rest(lrangeswork[brange], acumulate)])
      ensures limit == old(limit - acumulate)
    {
      hide Steady, RowSafe, Accounts, WindowSet, Layout, Coherent, Covered, Holds, Working, Remaining, Appended, AllCached, Knows;
      ghost var cur := lrangeswork[brange];
      ghost var rest := lrangeswork[brange + 1..];
      CutKeepsBlock(cur);
      lranges := AppendSubNode(lranges, lrangeswork[brange], acumulate);
      lrangeswork := lrangeswork[brange := Rest(lrangeswork[brange], acumulate)];
      limit := limit - acumulate;
      acumulate := 0;
      assert lrangeswork[brange + 1..] == rest;
    }

    lemma CutKeepsBlock(cur: Interval)
      requires Active() && bwrite && 0 < acumulate && cur == lrangeswork[brange] && AllOut()
      ensures var m := Appended(lranges, Head(cur, acumulate));
              && Working(m, file.data, origin, Rest(cur, acumulate), 0, true)
              && Layout(m) && Coherent(m, file.data, origin) && Extends(saved, m)
              && Remaining(m, cur.b + 1, planEnd, lrangeswork[brange + 1..])
              && Knows(m, rangeMin, cur.a + acumulate)
              && CrashSafe(m, file.durable, file.pending, origin)
    {
      hide Steady, RowSafe, Accounts, WindowSet, Layout, Coherent, Covered, Holds, Working, Remaining, Appended, AllCached, Knows;
      var m := Appended(lranges, Head(cur, acumulate));
      HeadIsWorking(lranges, file.data, origin, cur, acumulate);
      CheckpointBlock(lranges, file.data, origin, cur, acumulate);
      FlushIsCrashSafe(saved, m, file.data, origin);
      RemainingStays(lranges, m, cur.b + 1, planEnd, lrangeswork[brange + 1..]);
    }

    /** The checkpoint: the block is cut and the row saved. */
    method Checkpoint(now: int)
      requires Active() && bwrite && acumulate != 0 && now > 0
      requires AllOut() && countWait == 0 && timerecord == now
      modifies `lranges, `lrangeswork, `acumulate, `limit, `oldfilesended, `rg, `pos, `usersText, `touched, `users, `saved
      ensures Active() && acumulate == 0 && touched == now && oldfilesended == filesended
      ensures lranges == Appended(old(lranges), Head(old(lrangeswork[brange]), old(acumulate)))
      ensures lrangeswork == old(lrangeswork[brange := Rest(lrangeswork[brange], acumulate)])
      ensures limit == old(limit - acumulate)
      ensures users == Credited(old(users), ip, now, filesended - old(oldfilesended), false) && usersText == LedgerText(users)
      ensures forall k, q :: Holds(saved, k, q) <==> Holds(lranges, k, q)
      ensures Knows(saved, rangeMin, rangeMin + filesended)
    {
      hide InSegment, Active, Holds, Appended, Head, Rest, Credited, LedgerText, Knows;
      ActiveFacts();
      CutBlock();
      SubUpdate(now);
      StartIsKnown();
      SameHoldsKnowSame(lranges, saved, rangeMin, rangeMin + filesended);
    }

    /** At the start of a segment everything served is known. */
    lemma StartIsKnown()
      requires Active() && acumulate == 0
      ensures Knows(lranges, rangeMin, rangeMin + filesended)
    {
      hide Sound, Working, Remaining, AllCached, Knows, Decided;
    }

    /** SubUpdate: the row gets the current list, and the browser what it was served since
        the row was saved last. */
    method SubUpdate(now: int)
      requires Active() && !hit && AllOut() && now > 0 && countWait == 0 && timerecord == now
      modifies `oldfilesended, `rg, `pos, `usersText, `touched, `users, `saved
      ensures Active() && touched == now && oldfilesended == filesended
      ensures users == Credited(old(users), ip, now, filesended - old(oldfilesended), false) && usersText == LedgerText(users)
      ensures forall k, q :: Holds(saved, k, q) <==> Holds(lranges, k, q)
    {
      hide Cursor, Layout, Coherent, Extends, CrashSafe, RowList, Billed, Credited, LedgerText, Holds, RangesText, PositionsText, WindowSet, Decided;
      CreditBills(was, users, ip, touched, oldfilesended, 0, now, filesended - oldfilesended, false);
      SaveRow(filesended - oldfilesended, now);
      oldfilesended := filesended;
      FlushIsCrashSafe(saved, lranges, file.data, origin);
    }

    /** A flush, counted; the sixteenth inside a block of its own makes a checkpoint due. */
    method FlushAndCount(now: int) returns (due: bool)
      requires Active() && now - timerecord > 1
      modifies `timerecord, `countWait, file`durable, file`pending
      ensures Active() && AllOut() && timerecord == now
      ensures due <==> old(countWait) + 1 > 15 && acumulate != 0 && bwrite
      ensures countWait == if due then 0 else old(countWait) + 1
      ensures due ==> now >= touched + 32
    {
      hide Cursor, RowSafe, ListSound, WindowSet, Billed, Working, Remaining, AllCached, Knows, Decided;
      FlushFile();
      timerecord := now;
      countWait := countWait + 1;
      due := countWait > 15 && acumulate != 0 && bwrite;
      if due {
        countWait := 0;
      }
    }

    /** The end of a server call: every two whole seconds the file is flushed, and the
        sixteenth flush inside a block of its own saves the row. */
    method Tick(now: int)
      requires Active() && now > 0
      modifies `timerecord, `countWait, `lranges, `lrangeswork, `acumulate, `limit, `oldfilesended
      modifies `rg, `pos, `usersText, `touched, `users, `saved, file`durable, file`pending
      ensures Active() && brange < |lrangeswork| == old(|lrangeswork|)
      ensures now - old(timerecord) <= 1 ==>
                && unchanged(`timerecord, `countWait, `lranges, `lrangeswork, `acumulate, `limit, `oldfilesended)
                && unchanged(`rg, `pos, `usersText, `touched, `users, `saved, file`durable, file`pending)
      ensures now - old(timerecord) > 1 ==> AllOut() && timerecord == now
      ensures now - old(timerecord) > 1 ==>
                if old(countWait >= 15 && acumulate != 0 && bwrite) then
                  && CheckpointMade(now) && acumulate == 0 && limit == old(limit - acumulate)
                  && lranges == Appended(old(lranges), Head(old(lrangeswork[brange]), old(acumulate)))
                  && lrangeswork == old(lrangeswork[brange := Rest(lrangeswork[brange], acumulate)])
                  && users == Credited(old(users), ip, now, filesended - old(oldfilesended), false)
                else
                  && countWait == old(countWait) + 1
                  && unchanged(`lranges, `lrangeswork, `acumulate, `limit, `oldfilesended)
                  && unchanged(`rg, `pos, `usersText, `touched, `users, `saved)
      ensures touched != old(touched) ==> touched == now && now >= old(touched) + 32
    {
      hide InSegment, Active, Sound, Working, Remaining, AllCached, Knows, Holds, Appended, Decided, Head, Rest, Credited, LedgerText;
      ActiveFacts();
      if now - timerecord > 1 {
        var due := FlushAndCount(now);
        if due {
          Checkpoint(now);
          ActiveFacts();
        }
      }
    }

    /** The row was saved at `now`: it names what the list names, which is everything served
        and all of it on disk, the browser was billed, and the count starts again. */
    ghost predicate CheckpointMade(now: int)
      reads `touched, `countWait, `oldfilesended, `filesended, `saved, `lranges, `rangeMin, `usersText, `users
      reads file`data, file`durable, file`pending
    {
      && touched == now && countWait == 0 && oldfilesended == filesended && usersText == LedgerText(users) && AllOut()
      && (forall k, q :: Holds(saved, k, q) <==> Holds(lranges, k, q))
      && Knows(saved, rangeMin, rangeMin + filesended)
    }

    // ----- a part from the server

    /** What the first segment decides. */
    lemma StartDecides()
      requires AtStart()
      ensures lrangeswork != [] && !miss2hit
      ensures !hit ==> !Knows(loaded, lrangeswork[0].b, planEnd + 1)
    {
      hide Sound;
      EntryDecides(loaded, rangeMin, planEnd, lrangeswork);
    }

    /** The file is opened, the plan at its first segment. */
    method StartPlan()
      requires AtStart()
      modifies `brange, `acumulate, `bwrite, file
      ensures Between() && file.isOpen && brange == 0 < |lrangeswork| && !bwrite
      ensures lrangeswork[0..] == lrangeswork && filesended == 0 && acumulate == 0
    {
      hide Steady, RowSafe, Accounts, WindowSet, Layout, Coherent, Extends, Remaining, AllCached;
      file.Open();
      brange, acumulate, bwrite := 0, 0, false;
      assert lrangeswork[0..] == lrangeswork;
    }

    /** First call: the file is opened and the first segment entered. */
    method OpenForServer()
      requires AtStart() && !hit && lrangeswork != []
      modifies `brange, `acumulate, `bwrite, `lrangeswork, `limit, file
      ensures Active() && filesended == 0 && !miss2hit && acumulate == 0 && brange == 0 < |lrangeswork|
      ensures lrangeswork == old(lrangeswork[0 := Placed(lranges, lrangeswork[0])])
      ensures bwrite <==> old(lrangeswork[0].position < 0)
    {
      hide InSegment, Between, AtStart, Remaining, AllCached;
      StartDecides();
      StartPlan();
      EnterSegment();
    }

    /** On to the next segment; when nothing after it is missing the disk takes over. */
    method NextSegment()
      requires Between() && file.isOpen && brange < |lrangeswork| && !hit
      modifies `lrangeswork, `bwrite, `limit, `miss2hit, file`offset, file`durable, file`pending
      ensures Active() && acumulate == 0 && brange < |lrangeswork|
      ensures lrangeswork == old(lrangeswork[brange := Placed(lranges, lrangeswork[brange])])
      ensures bwrite <==> old(lrangeswork[brange].position < 0)
      ensures miss2hit <==> old(AllCached(lrangeswork[brange..]))
    {
      hide Steady, RowSafe, Accounts, ListSound, WindowSet, Working, Remaining, Knows, AllCached;
      ghost var rest := lrangeswork[brange..];
      EntryDecides(loaded, rangeMin + filesended, planEnd, rest);
      EnterSegment();
      AllCachedOrWriting(rest, lrangeswork[brange..], bwrite);
      var all := IsAllHit(lrangeswork, brange);
      if !bwrite && all {
        miss2hit := true;
      }
    }

    /** A turn of the overflow loop: the current segment is filled, the next one entered. */
    method FillSegment(d: string)
      requires Active() && !hit && d != [] && acumulate + |d| == limit
      requires forall i :: 0 <= i < |d| ==> d[i] == origin(rangeMin + filesended + i)
      modifies `lranges, `lrangeswork, `brange, `bwrite, `limit, `miss2hit, `acumulate, `filesended, file
      ensures filesended == old(filesended) + |d| && brange == old(brange) + 1 <= |lrangeswork| == old(|lrangeswork|)
      ensures brange < |lrangeswork| ==>
                var next := old(lrangeswork)[brange];
                && acumulate == 0 && lrangeswork[brange].a == next.a && lrangeswork[brange].b == next.b
                && (bwrite <==> next.position < 0)
                && (miss2hit <==> AllCached(old(lrangeswork)[brange..]))
      ensures forall j :: brange < j < |lrangeswork| ==> lrangeswork[j] == old(lrangeswork)[j]
      ensures if brange < |lrangeswork| then Active() else Exhausted()
    {
      hide InSegment, Active, Sound, Between, Exhausted, Appended, Decided, PointEnd, AllCached;
      ActiveFacts();
      WriteBody(d);
      FinishSegment();
      if brange < |lrangeswork| {
        NextSegment();
      }
    }

    /** The current segment is one of the plan `p` a call found at its segment `i`, where
        `own` says whether that one was a block of its own. */
    ghost predicate IsSegment(p: seq<Interval>, i: nat, own: bool)
      reads `lrangeswork, `brange, `bwrite
    {
      && brange < |lrangeswork| && i <= brange < |p|
      && lrangeswork[brange].a == p[brange].a && lrangeswork[brange].b == p[brange].b
      && (bwrite <==> if brange == i then own else p[brange].position < 0)
    }

    /** A body part larger than the current segment: fills segments until the part fits.
        `left` bytes remain for the current segment, or the plan is exhausted. */
    method FillSegments(body: string) returns (left: nat)
      requires Active() && !hit && body != []
      requires forall i :: 0 <= i < |body| ==> body[i] == origin(rangeMin + filesended + i)
      modifies `lranges, `lrangeswork, `brange, `bwrite, `limit, `miss2hit, `acumulate, `filesended, file
      ensures 0 < left <= |body| && filesended == old(filesended) + |body| - left
      ensures old(brange) <= brange <= |lrangeswork| == old(|lrangeswork|)
      ensures brange < |lrangeswork| ==> IsSegment(old(lrangeswork), old(brange), old(bwrite))
      ensures if brange < |lrangeswork| then Active() && acumulate + left <= limit else Exhausted()
    {
      hide InSegment, Active, Exhausted, AllCached;
      left := |body|;
      var pos := 0;
      ActiveFacts();
      while acumulate + left > limit
        invariant Active() && brange < |lrangeswork| && 0 <= acumulate < limit
        invariant 0 <= pos && 0 < left && pos + left == |body|
        invariant filesended == old(filesended) + pos
        invariant old(brange) <= brange && |lrangeswork| == old(|lrangeswork|)
        invariant IsSegment(old(lrangeswork), old(brange), old(bwrite))
        invariant forall j :: brange < j < |lrangeswork| ==> lrangeswork[j] == old(lrangeswork)[j]
        decreases left
      {
        var btmp := limit - acumulate;
        FillSegment(body[pos..pos + btmp]);
        left := left - btmp;
        pos := pos + btmp;
        if brange == |lrangeswork| {
          return;
        }
        ActiveFacts();
      }
    }

    /** Inside a segment the plan is not exhausted. */
    lemma ActiveIsBeforeEnd()
      requires Active()
      ensures filesended < planEnd + 1 - rangeMin && Settled()
    {
      hide Sound, Working, AllCached, Decided;
      RemainingEnds(lranges, lrangeswork[brange].b + 1, planEnd, lrangeswork[brange + 1..]);
    }

    method CloseFile()
      requires Sound()
      modifies file
      ensures Sound() && AllOut() && ListSafe() && !file.isOpen
    {
      hide Accounts, WindowSet, Layout, Coherent, Extends, CrashSafe, RowList;
      FlushIsCrashSafe(saved, lranges, file.data, origin);
      file.Close();
    }

    /** A finished segment is flushed, and the next one entered. */
    method FinishFlushed() returns (r: int)
      requires InSegment() && acumulate == limit && !hit
      modifies `lranges, `lrangeswork, `brange, `bwrite, `limit, `miss2hit, `acumulate, file
      ensures brange <= |lrangeswork| && acumulate == 0
      ensures if brange < |lrangeswork| then Active() && r == 0
              else Exhausted() && ListSafe() && AllOut() && r == if filesended == filesizeneto then 0 else -1
      ensures brange == |lrangeswork| ==> (file.isOpen <==> r == 0)
    {
      hide InSegment, Active, Sound, Between, Exhausted, Appended, Decided, PointEnd, Placed, AllCached, ListSafe;
      r := 0;
      FlushInSegment();
      FinishSegment();
      if brange == |lrangeswork| {
        if filesended != filesizeneto {
          r := CloseExhausted();
        }
      } else {
        NextSegment();
      }
    }

    /** What a call at `now` does about time, with the part it wrote ending inside a block of
        its own or not: within a second of the last flush nothing; later a flush, and with the
        sixteenth inside a block of its own a checkpoint. */
    twostate predicate Ticked(now: int, inside: bool)
      reads this, file
    {
      if now - old(timerecord) <= 1 then unchanged(`timerecord, `countWait, `touched, `oldfilesended, `users, `usersText, `saved, `rg, `pos)
      else
        && timerecord == now && AllOut()
        && if inside && old(countWait) >= 15 then CheckpointMade(now)
           else
             && countWait == old(countWait) + 1
             && unchanged(`touched, `oldfilesended, `users, `usersText, `saved, `rg, `pos)
    }

    /** The piece that fits the current segment, and what its last byte sets off. The result
        is -1 when the plan ends off the announced length. */
    method WriteLastPiece(piece: string, now: int) returns (r: int)
      requires Active() && !hit && matched && now > 0 && piece != [] && acumulate + |piece| <= limit
      requires forall i :: 0 <= i < |piece| ==> piece[i] == origin(rangeMin + filesended + i)
      modifies `lranges, `lrangeswork, `brange, `bwrite, `limit, `miss2hit, `acumulate, `filesended
      modifies `timerecord, `countWait, `oldfilesended, `rg, `pos, `usersText, `touched, `users, `saved, file
      ensures filesended == old(filesended) + |piece| && brange <= |lrangeswork|
      ensures if brange < |lrangeswork| then Active() && r == 0
              else Exhausted() && ListSafe() && AllOut() && r == if filesended == filesizeneto then 0 else -1
      ensures touched != old(touched) ==> touched == now && now >= old(touched) + 32
      ensures brange < |lrangeswork| ==> Ticked(now, old(acumulate) + |piece| < old(limit) && old(bwrite))
      ensures if brange < |lrangeswork| then miss2hit ==> AllOut() else file.isOpen <==> r == 0
    {
      hide InSegment, Active, Sound, Exhausted, Decided, Appended, Head, Rest, Credited, Holds, Knows, LedgerText;
      r := 0;
      ActiveFacts();
      ActiveIsDecided();
      WriteBody(piece);
      if acumulate == limit {
        r := FinishFlushed();
        if brange == |lrangeswork| {
          return;
        }
      } else {
        SegmentIsActive();
      }
      Tick(now);
      if miss2hit {
        FlushActive();
      }
    }

    /** More came than planned: the request goes on outside the cache. */
    method Abandon()
      requires Exhausted()
      modifies `matched, file
      ensures Sound() && !matched && !file.isOpen && filesended == planEnd + 1 - rangeMin && Settled()
    {
      hide Steady, RowSafe, Accounts, ListSound, WindowSet, Remaining, AllCached, Knows;
      matched := false;
      CloseFile();
    }

    method CloseExhausted() returns (r: int)
      requires Exhausted()
      modifies file
      ensures Exhausted() && ListSafe() && AllOut() && !file.isOpen && r == -1
    {
      hide Steady, RowSafe, Accounts, WindowSet, ListSound, Remaining, AllCached, Knows;
      CloseFile();
      r := -1;
    }

    /** A call that ends after `served` bytes ends inside a block of the request's own. */
    ghost predicate EndsInside(served: int)
      reads `lrangeswork, `brange, `bwrite, `rangeMin, file`isOpen
    {
      if file.isOpen then InsideOwn(lrangeswork, brange, bwrite, rangeMin + served)
      else lrangeswork != [] && InsideOwn(lrangeswork, 0, lrangeswork[0].position < 0, rangeMin + served)
    }

    lemma PlanIsOrdered()
      requires Active()
      ensures Ordered(lrangeswork, brange) && forall j :: brange <= j < |lrangeswork| ==> lrangeswork[j].a <= lrangeswork[j].b
    {
      hide Sound, AllCached, Knows, Decided, Remaining, Layout, Coherent, Located, Stored, Fresh, Ordered;
      ghost var rest := lrangeswork[brange + 1..];
      RemainingOrdered(lranges, lrangeswork[brange].b + 1, planEnd, rest);
      OrderedFront(lrangeswork, brange, rest);
    }

    /** Where the cursor is. */
    lemma CursorFacts()
      requires Active()
      ensures brange < |lrangeswork| && limit == lrangeswork[brange].Size() && 0 <= acumulate < limit
      ensures filesended == lrangeswork[brange].a - rangeMin + acumulate
    {
      hide Sound, Working, Remaining, AllCached, Knows, Decided;
    }

    /** The miss path of ReadBodyPart: the server's part `body` (or, with none, the value
        `status` it returned) is written to the cache while it is passed on.
        The result is the part's length while the plan can hold it; a part that goes beyond
        the plan, or a plan that ends off the announced length, ends the transfer with -1. */
    method FromServer(body: string, status: int, now: int) returns (r: int)
      requires (AtStart() || Active()) && !hit && !miss2hit && matched && now > 0 && status <= 0
      requires forall i :: 0 <= i < |body| ==> body[i] == origin(rangeMin + filesended + i)
      modifies `lranges, `lrangeswork, `brange, `bwrite, `limit, `miss2hit, `acumulate, `filesended
      modifies `timerecord, `countWait, `oldfilesended, `rg, `pos, `usersText, `touched, `users, `saved, `matched, file
      ensures var served, planned := old(filesended) + |body|, planEnd + 1 - rangeMin;
              if body == [] then
                && Active() && matched && filesended == old(filesended) && r == status
                && unchanged(`lranges, `timerecord, `countWait, `touched, `users, `usersText, `saved, `rg, `pos)
              else if served < planned then Active() && matched && filesended == served && r == |body|
              else if served == planned then
                && Exhausted() && matched && filesended == served && (file.isOpen <==> r != -1)
                && r == if served == filesizeneto then |body| else -1
              else Sound() && !matched && !file.isOpen && filesended == planned && r == -1
      ensures Settled()
      ensures touched != old(touched) ==> touched == now && now >= old(touched) + 32
      // with more of the plan to come: what the time since the last flush makes of the call
      ensures body != [] && old(filesended) + |body| < planEnd + 1 - rangeMin ==>
                Ticked(now, old(EndsInside(filesended + |body|))) && (miss2hit ==> AllOut())
    {
      hide InSegment, Active, Sound, Between, Exhausted, Settled, Remaining, AllCached, InsideOwn, CheckpointMade;
      AtStartOrActive();
      if !file.isOpen {
        ghost var p := lrangeswork;
        OpenForServer();
        InsideOwnOfPlaced(p, lrangeswork[0], bwrite, rangeMin + filesended + |body|);
      }
      if body == [] {
        ActiveIsBeforeEnd();
        return status;
      }
      r := WritePart(body, now);
    }

    /** The part of a server call: it fills segments, and its last piece is written. */
    method WritePart(body: string, now: int) returns (r: int)
      requires Active() && !hit && matched && now > 0 && body != []
      requires forall i :: 0 <= i < |body| ==> body[i] == origin(rangeMin + filesended + i)
      modifies `lranges, `lrangeswork, `brange, `bwrite, `limit, `miss2hit, `acumulate, `filesended
      modifies `timerecord, `countWait, `oldfilesended, `rg, `pos, `usersText, `touched, `users, `saved, `matched, file
      ensures var served, planned := old(filesended) + |body|, planEnd + 1 - rangeMin;
              if served < planned then Active() && matched && filesended == served && r == |body|
              else if served == planned then
                && Exhausted() && matched && filesended == served && (file.isOpen <==> r != -1)
                && r == if served == filesizeneto then |body| else -1
              else Sound() && !matched && !file.isOpen && filesended == planned && r == -1
      ensures Settled()
      ensures touched != old(touched) ==> touched == now && now >= old(touched) + 32
      ensures old(filesended) + |body| < planEnd + 1 - rangeMin ==>
                && Ticked(now, old(InsideOwn(lrangeswork, brange, bwrite, rangeMin + filesended + |body|)))
                && (miss2hit ==> AllOut())
    {
      hide InSegment, Active, Sound, Between, Exhausted, Settled, Remaining, AllCached, InsideOwn, Ordered, CheckpointMade;
      ghost var p, i, own := lrangeswork, brange, bwrite;
      PlanIsOrdered();
      var left := FillSegments(body);
      if brange == |lrangeswork| {
        Abandon();
        return -1;
      }
      CursorFacts();
      InsideOwnAt(p, i, own, brange, rangeMin + filesended + left);
      r := WriteLastPiece(body[|body| - left..], now);
      if brange < |lrangeswork| {
        ActiveIsBeforeEnd();
      } else {
        ExhaustedIsSettled();
      }
      if r == 0 {
        r := |body|;
      }
    }

    // ----- a part from the disk

    /** First call of a hit: the file is opened at the first segment. */
    method OpenForCache()
      requires AtStart() && hit
      modifies `brange, `acumulate, `bwrite, `limit, file
      ensures Active() && filesended == 0 && acumulate == 0 && limit == lrangeswork[0].Size()
    {
      hide InSegment, Active, Between, AtStart;
      StartPlan();
      NextCached();
    }

    /** Bytes read at the cursor of a cached segment are the origin's. */
    lemma CachedBytes(n: nat)
      requires Active() && !bwrite && acumulate + n <= limit
      ensures file.offset + n <= |file.data|
      ensures forall i :: file.offset <= i < file.offset + n ==>
                            file.data[i] == origin(rangeMin + filesended + i - file.offset)
    {
      hide Steady, RowSafe, Accounts, WindowSet, Layout, Extends, Remaining, AllCached, Holds;
      var cur := lrangeswork[brange];
      var from := file.offset;
      forall i | from <= i < from + n
        ensures i < |file.data| && file.data[i] == origin(rangeMin + filesended + i - from)
      {
        assert Holds(lranges, cur.a + acumulate + i - from, i);
      }
      if n > 0 {
        assert Holds(lranges, cur.a + acumulate + n - 1, from + n - 1);
      }
    }

    lemma CachedFirst()
      requires brange < |lrangeswork| && AllCached(lrangeswork[brange..])
      ensures lrangeswork[brange].position >= 0
    {
      assert lrangeswork[brange] == lrangeswork[brange..][0];
    }

    /** The next cached segment. */
    method NextCached()
      requires Between() && file.isOpen && brange < |lrangeswork| && (hit || miss2hit) && !bwrite
      modifies `limit, file`offset, file`durable, file`pending
      ensures Active() && limit == lrangeswork[brange].Size()
    {
      hide Steady, ListSound, ListSafe, Working, Remaining, Knows, AllCached;
      CachedFirst();
      RestDecides(loaded, rangeMin + filesended, planEnd, lrangeswork[brange..]);
      EnterFacts();
      SeekTo(lrangeswork[brange].position);
      limit := lrangeswork[brange].b - lrangeswork[brange].a + 1;
    }

    /** `n` bytes of the current segment are read. */
    method ReadSegment(n: nat) returns (out: string)
      requires Active() && !bwrite && 0 < n && acumulate + n <= limit
      modifies `acumulate, `filesended, file`offset
      ensures InSegment() && acumulate == old(acumulate) + n && filesended == old(filesended) + n && |out| == n
      ensures forall i :: 0 <= i < n ==> out[i] == origin(rangeMin + old(filesended) + i)
    {
      hide Steady, RowSafe, Accounts, WindowSet, Layout, Coherent, Extends, Remaining, AllCached, Located;
      CachedBytes(n);
      out := file.Read(n);
      filesended := filesended + |out|;
      acumulate := acumulate + |out|;
    }

    /** One read of the hit path: the bytes, and the cursor moved past them. */
    method ReadAndAdvance(n: nat) returns (out: string)
      requires Active() && (hit || miss2hit) && 0 < n && acumulate + n <= limit
      modifies `acumulate, `filesended, `brange, `limit, `lranges, file`offset, file`durable, file`pending
      ensures filesended == old(filesended) + n && |out| == n
      ensures forall i :: 0 <= i < n ==> out[i] == origin(rangeMin + old(filesended) + i)
      ensures if brange < |lrangeswork| then Active() else brange == |lrangeswork| && Exhausted()
    {
      hide Sound, ListSafe, Between, Working, Remaining, AllCached;
      out := ReadSegment(n);
      if acumulate == limit {
        FinishSegment();
        if brange != |lrangeswork| {
          NextCached();
        }
      }
    }

    /** The hit path of ReadBodyPart, also taken after a miss turned into a hit: at most
        MAXRECV bytes of the current segment. The plan's last byte ends the transfer, with -1
        when it comes off the announced length. */
    method FromCache() returns (r: int, out: string)
      requires if file.isOpen then Active() && (hit || miss2hit) else AtStart() && hit
      modifies `brange, `acumulate, `bwrite, `limit, `filesended, `lranges, file
      ensures filesended == old(filesended) + |out|
      // a whole buffer, or what is left of the segment
      ensures |out| == old(var n := if file.isOpen then limit - acumulate else lrangeswork[0].Size(); if n < 14600 then n else 14600)
      ensures 0 < |out| <= MAXRECV
      ensures forall i :: 0 <= i < |out| ==> out[i] == origin(rangeMin + old(filesended) + i)
      ensures if filesended < planEnd + 1 - rangeMin then Active() && r == |out|
              else
                && Exhausted() && !file.isOpen && filesended == planEnd + 1 - rangeMin
                && r == if filesended == filesizeneto then |out| else -1
      ensures Settled()
    {
      hide InSegment, Active, AtStart, Settled, Sound, Between, Exhausted;
      if !file.isOpen {
        OpenForCache();
      }
      ActiveFacts();
      var tbuffer := MAXRECV;
      if acumulate + tbuffer > limit {
        tbuffer := limit - acumulate;
      }
      out := ReadAndAdvance(tbuffer);
      r := |out|;
      if brange == |lrangeswork| {
        r := FinishFromCache(r);
        ExhaustedIsSettled();
      } else {
        ActiveIsBeforeEnd();
      }
    }

    method FinishFromCache(n: int) returns (r: int)
      requires Exhausted()
      modifies file
      ensures Exhausted() && ListSafe() && !file.isOpen && filesended == planEnd + 1 - rangeMin
      ensures r == if filesended == filesizeneto then n else -1
    {
      hide Steady, RowSafe, Accounts, WindowSet, ListSound, Remaining, AllCached, Knows;
      CloseFile();
      r := if filesended == filesizeneto then n else -1;
    }

    // ----- the end of a request

    /** The written part of a block the transfer stopped in enters the list. */
    method KeepPartial()
      requires Active() && bwrite && 0 < acumulate
      modifies `lranges, `lrangeswork, file`durable, file`pending
      ensures Sound() && Knows(lranges, rangeMin, rangeMin + filesended)
      ensures lranges == Appended(old(lranges), Head(old(lrangeswork[brange]), acumulate))
      ensures AllOut() && ListSafe()
    {
      hide Accounts, WindowSet, RowList, CrashSafe, Layout, Coherent, Appended, Working, Remaining, AllCached;
      ghost var partial := Head(lrangeswork[brange], acumulate);
      HeadIsWorking(lranges, file.data, origin, lrangeswork[brange], acumulate);
      FinishBlock(lranges, file.data, origin, partial);
      FlushFile();
      FlushIsCrashSafe(saved, Appended(lranges, partial), file.data, origin);
      var cur := lrangeswork[brange];
      lrangeswork := lrangeswork[brange := cur.(b := cur.a + acumulate - 1)];
      lranges := AppendNode(lranges, lrangeswork[brange]);
    }

    /** The list as the last update leaves it: with the written part of an unfinished block. */
    ghost function FinalList(): seq<Interval>
      reads this
      requires acumulate != 0 && bwrite ==> brange < |lrangeswork|
    {
      if acumulate != 0 && bwrite then Appended(lranges, Head(lrangeswork[brange], acumulate)) else lranges
    }

    /** What the row says agrees with the file as the process sees it. */
    ghost predicate RowCoherent()
      reads `saved, `rg, `pos, file`data
    {
      saved == RowList(rg, pos) && Layout(saved) && Coherent(saved, file.data, origin)
    }

    /** The unfinished block enters the list, after a flush. */
    method KeepUnfinished()
      requires Settled()
      modifies `lranges, `lrangeswork, file`durable, file`pending
      ensures Sound() && ListSafe() && lranges == old(FinalList()) && Knows(lranges, rangeMin, rangeMin + filesended)
      ensures old(acumulate != 0 && bwrite) ==> AllOut()
      ensures !old(acumulate != 0 && bwrite) ==>
                file.durable == old(file.durable) && file.pending == old(file.pending)
    {
      hide Sound, Working, Remaining, AllCached, Appended, Decided;
      if acumulate != 0 && bwrite {
        KeepPartial();
      } else if acumulate != 0 {
        CachedIsKnown();
      }
    }

    /** What a rewritten segment has passed is known as well. */
    lemma CachedIsKnown()
      requires Active() && !bwrite
      ensures Knows(lranges, rangeMin, rangeMin + filesended)
    {
      hide Sound, Remaining, AllCached, Layout, Coherent;
      LocatedIsKnown(lranges, lrangeswork[brange]);
    }

    /** Update: the last word of a request to the row. */
    method Update(now: int)
      requires Settled() && now > 0
      modifies `lranges, `lrangeswork, `rg, `pos, `usersText, `users, `touched, `saved, `hasUpdate, `acumulate
      modifies file`durable, file`pending
      ensures lranges == [] && lrangeswork == []
      ensures RowSafe() && RowCoherent() && Extends(loaded, saved)
      ensures if old(matched && !hit && acumulate != 0 && bwrite) then AllOut()
              else file.durable == old(file.durable) && file.pending == old(file.pending)
      // a miss: the row has the final list, and the browser owes what it was served
      ensures matched && !hit && !old(hasUpdate) ==>
                && hasUpdate && touched == now && acumulate == 0
                && usersText == LedgerText(users) && Billed(was, users, ip, now, filesended, 0)
                && Knows(saved, rangeMin, rangeMin + filesended)
                && forall k, q :: Holds(saved, k, q) <==> Holds(old(FinalList()), k, q)
      // a hit: only the account changes
      ensures hit && !old(hasUpdate) && filesended != 0 ==>
                && hasUpdate && touched == now
                && usersText == LedgerText(users) && Billed(was, users, ip, now, 0, filesended)
      ensures hit || !matched || old(hasUpdate) ==> rg == old(rg) && pos == old(pos)
      ensures (if hit then old(hasUpdate) || filesended == 0 else !matched || old(hasUpdate)) ==>
                usersText == old(usersText)
      // a request that left the cache: what was billed up to its last checkpoint
      ensures !matched && !hit ==> TextBilled() && 0 <= oldfilesended <= filesended
    {
      hide Settled, Sound, RowSafe, RowCoherent, CrashSafe, Billed, Holds, LedgerText, Knows, Extends, AllOut;
      SettledIsSound();
      SoundRow();
      if matched && !hit {
        UpdateMiss(now);
      } else if hit {
        UpdateHit(now);
      }
      lranges := [];
      lrangeswork := [];
    }

    /** The end of a miss: the unfinished block enters the list, and the row is saved. */
    method UpdateMiss(now: int)
      requires Settled() && matched && !hit && now > 0
      modifies `lranges, `lrangeswork, `rg, `pos, `usersText, `users, `touched, `saved, `hasUpdate, `acumulate
      modifies file`durable, file`pending
      ensures hasUpdate && acumulate == 0 && RowSafe() && RowCoherent() && Extends(loaded, saved)
      ensures if old(acumulate != 0 && bwrite) then AllOut()
              else file.durable == old(file.durable) && file.pending == old(file.pending)
      ensures !old(hasUpdate) ==>
                && touched == now && usersText == LedgerText(users) && Billed(was, users, ip, now, filesended, 0)
                && Knows(saved, rangeMin, rangeMin + filesended)
                && forall k, q :: Holds(saved, k, q) <==> Holds(old(FinalList()), k, q)
      ensures old(hasUpdate) ==> rg == old(rg) && pos == old(pos) && usersText == old(usersText)
    {
      hide Settled, Sound, Layout, Coherent, CrashSafe, RowList, Billed, Credited, Holds, Covered, RangesText, PositionsText, LedgerText, Appended, Extends;
      KeepUnfinished();
      SoundRow();
      if !hasUpdate {
        CreditBills(was, users, ip, touched, oldfilesended, 0, now, filesended - oldfilesended, false);
        SaveRow(filesended - oldfilesended, now);
        SavedIsSafe();
        KnowsSame(lranges, saved, rangeMin, rangeMin + filesended);
        hasUpdate := true;
      }
      acumulate := 0;
    }

    /** The end of a hit: only the account changes. */
    method UpdateHit(now: int)
      requires ip != "" && now > 0
      requires users == was || Billed(was, users, ip, touched, 0, 0)
      modifies `usersText, `users, `touched, `hasUpdate
      ensures !old(hasUpdate) && filesended != 0 ==>
                && hasUpdate && touched == now
                && usersText == LedgerText(users) && Billed(was, users, ip, now, 0, filesended)
      ensures old(hasUpdate) || filesended == 0 ==> usersText == old(usersText)
    {
      hide Billed, LedgerText, Credited;
      if !hasUpdate && filesended != 0 {
        CreditBills(was, users, ip, touched, 0, 0, now, filesended, true);
        var _, credited := AddUserCache(users, ip, now, filesended, true);
        users := credited;
        usersText := LuserCache2Str(users);
        touched := now;
        hasUpdate := true;
      }
    }

    lemma SettledIsSound()
      requires Settled()
      ensures Sound()
    {
      hide Sound, Knows, Working, Remaining, AllCached, Decided;
    }

    /** The row of a request agrees with the file, and keeps what the request found. */
    lemma SoundRow()
      requires Sound()
      ensures RowSafe() && RowCoherent() && Extends(loaded, saved) && ip != ""
      ensures Coherent(lranges, file.data, origin) && Layout(lranges)
      ensures Extends(loaded, saved) && Extends(saved, lranges)
      ensures (users == was && oldfilesended == 0) || Billed(was, users, ip, touched, oldfilesended, 0)
      ensures TextBilled() && 0 <= oldfilesended <= filesended && (hit ==> oldfilesended == 0)
    {
      hide Layout, CrashSafe, RowList, Billed, Holds, TextBilled;
    }

    /** A row that names what the list names is as safe as the list; flushed, it is safe. */
    lemma SavedIsSafe()
      requires forall k, q :: Holds(saved, k, q) <==> Holds(lranges, k, q)
      ensures CrashSafe(saved, file.durable, file.pending, origin) <==> CrashSafe(lranges, file.durable, file.pending, origin)
      ensures Coherent(lranges, file.data, origin) && AllOut() ==> CrashSafe(saved, file.durable, file.pending, origin)
      ensures Coherent(lranges, file.data, origin) ==> Coherent(saved, file.data, origin)
    {
      SameHoldsSameSafety(lranges, saved, file.durable, file.pending, origin);
      hide Holds;
    }

    /** CloseUpdate: the last update, then everything is handed over. */
    method CloseUpdate(now: int)
      requires Settled() && now > 0
      modifies `lranges, `lrangeswork, `rg, `pos, `usersText, `users, `touched, `saved, `hasUpdate, `acumulate
      modifies file
      ensures RowSafe() && RowCoherent() && !file.isOpen && file.data == old(file.data) && AllOut()
      ensures Extends(loaded, saved)
      ensures matched && !hit && !old(hasUpdate) ==>
                && usersText == LedgerText(users) && Billed(was, users, ip, now, filesended, 0)
                && Knows(saved, rangeMin, rangeMin + filesended)
                && forall k, q :: Holds(saved, k, q) <==> Holds(old(FinalList()), k, q)
      ensures hit && !old(hasUpdate) && filesended != 0 ==>
                usersText == LedgerText(users) && Billed(was, users, ip, now, 0, filesended)
      ensures !matched && !hit ==> TextBilled() && 0 <= oldfilesended <= filesended
    {
      hide Layout, RowList, Billed, LedgerText, TextBilled, Active, Sound, Knows, Holds;
      Update(now);
      file.Close();
    }

    /** After a crash, whatever of the buffer the file got, the row and the file are fit for
        the next request. RowSafe is part of every invariant of a request, so this holds at any
        moment of it. */
    lemma CrashRecovers(image: string)
      requires RowSafe() && Survives(file.durable, file.pending, image)
      ensures Layout(RowList(rg, pos)) && Coherent(RowList(rg, pos), image, origin)
      ensures CrashSafe(RowList(rg, pos), image, {}, origin)
    {
      hide Layout, RowList;
      CrashSafeSurvives(saved, file.durable, file.pending, origin, image);
    }
  }
}
