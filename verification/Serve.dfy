/** Whole requests: the parts of a body as the browser gets them, and the row one request
    leaves for the next. */
module Serve {
  import opened Intervals
  import opened RangeWork
  import opened Ledger
  import opened CacheFile
  import opened Blocks
  import S = Session

  /** The server's parts are the origin's bytes from `from` on. */
  ghost predicate Feeds(chunks: seq<string>, origin: Origin, from: int)
    decreases |chunks|
  {
    chunks != [] ==>
      && chunks[0] != []
      && (forall i :: 0 <= i < |chunks[0]| ==> chunks[0][i] == origin(from + i))
      && Feeds(chunks[1..], origin, from + |chunks[0]|)
  }

  /** ReadBodyPart: from the disk after a hit, else from the server, whose next part is
      `body` or, when it has none, whose status is `status`. */
  method ReadBodyPart(s: S.Session, body: string, status: int, now: int) returns (r: int, part: string)
    requires now > 0 && status <= 0 && s.matched
    requires s.Serving()
    requires !s.hit && !s.miss2hit ==>
               forall i :: 0 <= i < |body| ==> body[i] == s.origin(s.rangeMin + s.filesended + i)
    modifies s`lranges, s`lrangeswork, s`brange, s`bwrite, s`limit, s`miss2hit, s`acumulate, s`filesended
    modifies s`timerecord, s`countWait, s`oldfilesended, s`rg, s`pos, s`usersText, s`touched, s`users, s`saved, s`matched, s.file
    ensures s.Settled()
    ensures r <= 0 ==> part == []
    ensures r > 0 ==>
              && |part| == r && s.filesended == old(s.filesended) + r && s.matched
              && (forall i :: 0 <= i < r ==> part[i] == s.origin(s.rangeMin + old(s.filesended) + i))
              && if s.filesended < s.planEnd + 1 - s.rangeMin then s.Serving()
                 else s.filesended == s.filesizeneto == s.planEnd + 1 - s.rangeMin
    // from the disk: some bytes, and failure exactly when they end a plan that is too short
    ensures old(s.hit || s.miss2hit) ==>
              && (s.hit || s.miss2hit) && s.matched && r != 0
              && old(s.filesended) < s.filesended <= s.planEnd + 1 - s.rangeMin
              && s.filesended <= old(s.filesended) + S.MAXRECV
              && (r < 0 <==> s.filesended == s.planEnd + 1 - s.rangeMin && s.planEnd != s.rangeMax)
    // from the server: the status without a part; failure exactly when the part overflows the
    // plan, or ends a plan that is too short
    ensures !old(s.hit || s.miss2hit) && body == [] ==>
              r == status && s.matched && s.filesended == old(s.filesended)
    ensures !old(s.hit || s.miss2hit) && body != [] ==>
              var served, planned := old(s.filesended) + |body|, s.planEnd + 1 - s.rangeMin;
              && (s.matched <==> served <= planned)
              && (r < 0 <==> served > planned || (served == planned && s.planEnd != s.rangeMax))
              && r != 0 && s.filesended == if served <= planned then served else planned
  {
    hide S.Session.Sound, S.Session.InSegment, S.Session.Active, S.Session.Between, S.Session.AtStart, S.Session.Settled, S.Session.Exhausted;
    s.ServingLengths();
    if s.hit || s.miss2hit {
      r, part := s.FromCache();
    } else {
      r := s.FromServer(body, status, now);
      part := body;
    }
    s.SettledLengths();
    if r <= 0 {
      part := [];
    } else if s.filesended < s.planEnd + 1 - s.rangeMin {
      s.ActiveServes();
    }
  }

  ghost predicate IsSlice(out: string, origin: Origin, from: int) {
    forall i :: 0 <= i < |out| ==> out[i] == origin(from + i)
  }

  lemma SliceGrows(out: string, part: string, origin: Origin, from: int)
    requires IsSlice(out, origin, from)
    requires forall i :: 0 <= i < |part| ==> part[i] == origin(from + |out| + i)
    ensures IsSlice(out + part, origin, from)
  {
    forall i | 0 <= i < |out + part| ensures (out + part)[i] == origin(from + i) {
      if i >= |out| {
        assert part[i - |out|] == origin(from + |out| + (i - |out|));
      }
    }
  }

  // ----- how a transfer ends

  /** The announced length was reached with the server's parts; the disk served the rest; the
      server stopped first; a part overflowed the plan, or ended one that is too short. */
  datatype End = Cut | FromDisk | Stopped | Overflow | Tail

  datatype Delivery = Delivery(length: int, end: End)

  /** What becomes of a transfer that has `done` bytes, with `chunks` still to come from the
      server: the disk takes over as soon as `needed` bytes are there, the plan has `planned`
      bytes, too few for the window if it is `short`, and the browser was announced
      `reference`. */
  function Delivered(chunks: seq<string>, done: int, needed: int, planned: int, short: bool, reference: int): Delivery
    decreases |chunks|
  {
    if done >= reference then Delivery(reference, Cut)
    else if done >= needed then Delivery(if reference <= planned then reference else planned, FromDisk)
    else if chunks == [] then Delivery(done, Stopped)
    else if done + |chunks[0]| > planned then Delivery(done, Overflow)
    else if short && done + |chunks[0]| == planned then Delivery(done, Tail)
    else Delivered(chunks[1..], done + |chunks[0]|, needed, planned, short, reference)
  }

  /** One part further. */
  lemma DeliveredStep(chunks: seq<string>, done: int, needed: int, planned: int, short: bool, reference: int)
    ensures var d := Delivered(chunks, done, needed, planned, short, reference);
            if done >= reference then d == Delivery(reference, Cut)
            else if done >= needed then d == Delivery(if reference <= planned then reference else planned, FromDisk)
            else if chunks == [] then d == Delivery(done, Stopped)
            else if done + |chunks[0]| > planned then d == Delivery(done, Overflow)
            else if short && done + |chunks[0]| == planned then d == Delivery(done, Tail)
            else d == Delivered(chunks[1..], done + |chunks[0]|, needed, planned, short, reference)
  {
  }

  lemma FeedsStep(chunks: seq<string>, origin: Origin, from: int)
    requires Feeds(chunks, origin, from)
    ensures chunks != [] ==>
              && chunks[0] != [] && Feeds(chunks[1..], origin, from + |chunks[0]|)
              && forall i :: 0 <= i < |chunks[0]| ==> chunks[0][i] == origin(from + i)
  {
  }

  /** The value CommunicationHTTP returns. */
  function Code(end: End, ending: int): int {
    match end
    case Cut => 0
    case FromDisk => 0
    case Stopped => if ending == 0 then 0 else -75
    case Overflow => -75
    case Tail => -75
  }

  /** What the list a request found makes of the server's parts, for the window from `a` to
      `top` that is planned up to `to`. */
  ghost function Outcome(l: seq<Interval>, a: int, to: int, top: int, chunks: seq<string>, reference: int): Delivery
    requires a <= to + 1
  {
    Delivered(chunks, 0, KnownFrom(l, a, to + 1) - a, to + 1 - a, to != top, reference)
  }

  /** The disk ends a plan that is one byte short: the announced length is reached before, or
      the last read, at most one buffer, is lost. */
  predicate DiskTail(planned: int, reference: int, code: int, out: string) {
    if code == 0 then |out| == reference < planned
    else code == -75 && |out| < reference && |out| < planned <= |out| + S.MAXRECV
  }

  lemma {:induction false} StoppedIsShort(chunks: seq<string>, done: int, needed: int, planned: int, short: bool, reference: int)
    ensures var d := Delivered(chunks, done, needed, planned, short, reference);
            d.end.Stopped? || d.end.Overflow? || d.end.Tail? ==> d.length < reference
    decreases |chunks|
  {
    if chunks != [] {
      StoppedIsShort(chunks[1..], done + |chunks[0]|, needed, planned, short, reference);
    }
  }

  lemma {:induction false} OnlyShortHasTail(chunks: seq<string>, done: int, needed: int, planned: int, reference: int)
    ensures !Delivered(chunks, done, needed, planned, false, reference).end.Tail?
    decreases |chunks|
  {
    if chunks != [] {
      OnlyShortHasTail(chunks[1..], done + |chunks[0]|, needed, planned, reference);
    }
  }

  /** A window known from its start is served by the disk alone. */
  lemma OutcomeFacts(l: seq<Interval>, a: int, to: int, top: int, chunks: seq<string>, reference: int)
    requires a <= to + 1 && 1 <= reference
    ensures var d := Outcome(l, a, to, top, chunks, reference);
            && (d.end.Stopped? || d.end.Overflow? || d.end.Tail? ==> d.length < reference)
            && (d.end.Tail? ==> to != top)
            && (Knows(l, a, to + 1) ==> d == Delivery(if reference <= to + 1 - a then reference else to + 1 - a, FromDisk))
  {
    hide Knows, KnownFrom, Delivered;
    StoppedIsShort(chunks, 0, KnownFrom(l, a, to + 1) - a, to + 1 - a, to != top, reference);
    OnlyShortHasTail(chunks, 0, KnownFrom(l, a, to + 1) - a, to + 1 - a, reference);
    KnownFromIff(l, a, a, to + 1);
    DeliveredStep(chunks, 0, KnownFrom(l, a, to + 1) - a, to + 1 - a, to != top, reference);
  }

  /** A turn of the transfer: a part is read and handed out, cut at the announced length.
      `beyond`: the relay reads on although the plan is exhausted. */
  method Turn(s: S.Session, out: string, body: string, status: int, reference: int, now: int)
    returns (ended: bool, code: int, next: string, beyond: bool)
    requires s.Serving() && s.matched && now > 0 && status <= 0
    requires |out| == s.filesended < s.planEnd + 1 - s.rangeMin && |out| < reference
    requires IsSlice(out, s.origin, s.rangeMin)
    requires !s.hit && !s.miss2hit ==>
               forall i :: 0 <= i < |body| ==> body[i] == s.origin(s.rangeMin + s.filesended + i)
    modifies s`lranges, s`lrangeswork, s`brange, s`bwrite, s`limit, s`miss2hit, s`acumulate, s`filesended
    modifies s`timerecord, s`countWait, s`oldfilesended, s`rg, s`pos, s`usersText, s`touched, s`users, s`saved, s`matched, s.file
    ensures s.Settled() && IsSlice(next, s.origin, s.rangeMin)
    ensures var disk, planned := old(s.hit || s.miss2hit), s.planEnd + 1 - s.rangeMin;
            if !disk && body == [] then
              ended && next == out && code == (if status == 0 then 0 else -75) && s.matched && s.filesended == |out| && !beyond
            else if !disk && |out| + |body| > planned then
              ended && next == out && code == -75 && !s.matched && s.filesended == planned && !beyond
            else
              && s.matched && |out| < s.filesended <= planned
              && (if disk then s.filesended <= |out| + S.MAXRECV else s.filesended == |out| + |body|)
              && if s.filesended == planned && s.planEnd != s.rangeMax then
                   ended && next == out && code == -75 && !beyond
                 else if s.filesended >= reference then
                   ended && |next| == reference && code == 0 && !beyond
                 else if s.filesended == planned then
                   ended && |next| == planned && code == 0 && beyond
                 else
                   !ended && !beyond && |next| == s.filesended && s.Serving() && (disk ==> s.hit || s.miss2hit)
  {
    hide S.Session.Serving, S.Session.Settled, IsSlice;
    s.ServingLengths();
    var r, part := ReadBodyPart(s, body, status, now);
    s.SettledLengths();
    ended, code, next, beyond := r <= 0, if r < 0 then -75 else 0, out, false;
    if r > 0 {
      SliceGrows(out, part, s.origin, s.rangeMin);
      next := out + part;
      if |next| > reference {
        SliceCut(next, s.origin, s.rangeMin, reference);
        next := next[..reference];
      }
      beyond := |next| == s.filesizeneto < reference;
      ended := |next| == reference || beyond;
    }
  }

  lemma SliceCut(out: string, origin: Origin, from: int, n: nat)
    requires IsSlice(out, origin, from) && n <= |out|
    ensures IsSlice(out[..n], origin, from)
  {
  }

  /** A transfer with the outcome `d` ended with `code`, after `out` was handed out and `served`
      bytes were read. */
  ghost predicate Ends(d: Delivery, planned: int, short: bool, reference: int, ending: int,
                       code: int, out: string, served: int, matched: bool)
  {
    && |out| <= planned
    && (if short && d.end.FromDisk? then DiskTail(planned, reference, code, out)
        else |out| == d.length && code == Code(d.end, ending))
    && (matched <==> !d.end.Overflow?)
    && (matched ==> |out| <= served <= planned)
    && (code == 0 ==> |out| == if served <= reference then served else reference)
    && (d.end.Stopped? ==> served == |out|)
    && (code != 0 && !d.end.Stopped? ==> served == planned)
  }

  /** A turn with the parts `rest` still to come, of a transfer with the outcome `d`. */
  method TurnOfMany(s: S.Session, out: string, rest: seq<string>, ending: int, reference: int, now: int,
                    ghost needed: int, ghost d: Delivery)
    returns (ended: bool, code: int, next: string, beyond: bool, rest': seq<string>)
    requires s.Serving() && s.matched && now > 0 && ending <= 0
    requires |out| == s.filesended < s.planEnd + 1 - s.rangeMin && |out| < reference
    requires IsSlice(out, s.origin, s.rangeMin)
    requires needed <= s.planEnd + 1 - s.rangeMin && (s.hit || s.miss2hit <==> |out| >= needed)
    requires Delivered(rest, |out|, needed, s.planEnd + 1 - s.rangeMin, s.planEnd != s.rangeMax, reference) == d
    requires |out| < needed ==> Feeds(rest, s.origin, s.rangeMin + |out|)
    modifies s`lranges, s`lrangeswork, s`brange, s`bwrite, s`limit, s`miss2hit, s`acumulate, s`filesended
    modifies s`timerecord, s`countWait, s`oldfilesended, s`rg, s`pos, s`usersText, s`touched, s`users, s`saved, s`matched, s.file
    ensures s.Settled() && IsSlice(next, s.origin, s.rangeMin) && (s.hit ==> s.filesended > 0)
    ensures |next| <= reference && |next| <= s.filesizeneto
    ensures beyond <==> ended && code == 0 && |next| == s.filesizeneto < reference
    ensures ended ==> Ends(d, s.planEnd + 1 - s.rangeMin, s.planEnd != s.rangeMax, reference, ending, code, next, s.filesended, s.matched)
    ensures !ended ==>
              && s.Serving() && s.matched && |out| < |next| == s.filesended < s.planEnd + 1 - s.rangeMin && |next| < reference
              && Delivered(rest', |next|, needed, s.planEnd + 1 - s.rangeMin, s.planEnd != s.rangeMax, reference) == d
              && (|next| < needed ==> Feeds(rest', s.origin, s.rangeMin + |next|))
  {
    hide S.Session.Serving, S.Session.Settled, IsSlice, Delivered, Feeds;
    var body := if rest == [] then "" else rest[0];
    ghost var planned, short := s.planEnd + 1 - s.rangeMin, s.planEnd != s.rangeMax;
    DeliveredStep(rest, |out|, needed, planned, short, reference);
    if |out| < needed {
      FeedsStep(rest, s.origin, s.rangeMin + |out|);
    }
    rest' := if !s.hit && !s.miss2hit && rest != [] then rest[1..] else rest;
    s.ServingLengths();
    ended, code, next, beyond := Turn(s, out, body, ending, reference, now);
    s.SettledLengths();
    DeliveredStep(rest', s.filesended, needed, planned, short, reference);
  }

  /** The parts of one body, until the announced length is reached, nothing more comes or a
      part fails. `ending` is what reading the server gives after its last part. `beyond`: the
      relay reads on although the plan is exhausted. */
  method Serve(s: S.Session, chunks: seq<string>, ending: int, reference: int, clock: nat -> int)
    returns (code: int, out: string, beyond: bool)
    requires s.AtStart() && s.matched && ending <= 0 && 1 <= reference && forall n :: clock(n) > 0
    requires s.rangeMin <= s.planEnd + 1
    requires !s.hit ==> Feeds(chunks, s.origin, s.rangeMin)
    modifies s`lranges, s`lrangeswork, s`brange, s`bwrite, s`limit, s`miss2hit, s`acumulate, s`filesended
    modifies s`timerecord, s`countWait, s`oldfilesended, s`rg, s`pos, s`usersText, s`touched, s`users, s`saved, s`matched, s.file
    ensures s.Settled()
    // whatever happens, the browser gets the origin's bytes from the start of the window
    ensures IsSlice(out, s.origin, s.rangeMin) && |out| <= s.filesizeneto && |out| <= reference
    // how many, and with which result
    ensures Ends(Outcome(s.loaded, s.rangeMin, s.planEnd, s.rangeMax, chunks, reference), s.planEnd + 1 - s.rangeMin,
                 s.planEnd != s.rangeMax, reference, ending, code, out, s.filesended, s.matched)
    ensures s.hit ==> s.filesended > 0
    // the relay asks for more than the plan has if and only if more than the window was
    // announced, and all of the window was delivered
    ensures beyond <==> code == 0 && |out| == s.filesizeneto < reference
  {
    hide S.Session.Serving, S.Session.AtStart, S.Session.Settled, KnownFrom, IsSlice, Delivered, Feeds, Ends;
    out, code, beyond := "", 0, false;
    var rest := chunks;
    var n := 0;
    ghost var needed, planned := KnownFrom(s.loaded, s.rangeMin, s.planEnd + 1) - s.rangeMin, s.planEnd + 1 - s.rangeMin;
    ghost var short := s.planEnd != s.rangeMax;
    ghost var d := Delivered(chunks, 0, needed, planned, short, reference);
    Starts(s);
    s.ServingLengths();
    ServerOrDisk(s);
    while true
      invariant s.Serving() && s.matched && |out| == s.filesended < planned && |out| < reference
      invariant IsSlice(out, s.origin, s.rangeMin)
      invariant s.hit || s.miss2hit <==> s.filesended >= needed
      invariant Delivered(rest, s.filesended, needed, planned, short, reference) == d
      invariant s.filesended < needed ==> Feeds(rest, s.origin, s.rangeMin + s.filesended)
      decreases planned - s.filesended, |rest|
    {
      var ended;
      ended, code, out, beyond, rest := TurnOfMany(s, out, rest, ending, reference, clock(n), needed, d);
      n := n + 1;
      if ended {
        return;
      }
      s.ServingLengths();
      ServerOrDisk(s);
    }
  }

  lemma Starts(s: S.Session)
    requires s.AtStart()
    ensures s.Serving() && s.filesended == 0 && IsSlice("", s.origin, s.rangeMin)
  {
    hide S.Session.Sound;
  }

  /** Who serves the next byte, in terms of the list the request found. */
  lemma ServerOrDisk(s: S.Session)
    requires s.Serving() && s.rangeMin <= s.planEnd + 1
    ensures s.hit || s.miss2hit <==>
            s.filesended >= KnownFrom(s.loaded, s.rangeMin, s.planEnd + 1) - s.rangeMin
  {
    hide KnownFrom, S.Session.Serving;
    s.ServingDecides();
    s.ServingLengths();
    KnownFromIff(s.loaded, s.rangeMin, s.rangeMin + s.filesended, s.planEnd + 1);
  }

  // ----- one request, from row to row

  /** The row of a file: its range and users columns and the object's size, 0 when unknown. */
  datatype Row = Row(rg: string, pos: string, users: string, size: int)

  /** What the browser asks for and what the server gives: the window (rangeMax 0 or less:
      to the end), whether it is a partial request, the announced length, the object's size as
      a partial answer tells it (0: not at all), the body parts, how reading ends after them,
      and when the request ends. */
  datatype Request = Request(rangeMin: int, rangeMax: int, partial: bool, announced: int, total: int,
                             chunks: seq<string>, ending: int, ip: string, ended: int)

  ghost function ListOf(row: Row): seq<Interval> { S.RowList(row.rg, row.pos) }

  ghost predicate ValidRow(row: Row, file: File, origin: Origin)
    reads file
  {
    && Layout(ListOf(row)) && Coherent(ListOf(row), file.data, origin)
    && CrashSafe(ListOf(row), file.durable, file.pending, origin)
  }

  /** The last byte of the window before the server answers: an open window ends with the
      object, and one that overshoots its end is cut. */
  function FirstTop(q: Request, row: Row): int {
    var top := if row.size != 0 && q.rangeMax <= 0 then row.size - 1 else q.rangeMax;
    if row.size != 0 && q.rangeMin + 1 < row.size < top + 1 then row.size - 1 else top
  }

  /** The list alone serves the window; with an unknown size it must foresee its end. */
  ghost predicate HitAtOnce(q: Request, row: Row) {
    && (row.size != 0 || S.Foreseeable(ListOf(row), q.rangeMin, q.rangeMax))
    && Knows(ListOf(row), q.rangeMin, PlannedTo(ListOf(row), q.rangeMin, FirstTop(q, row)) + 1)
  }

  /** The server's announcement decides the window unless the size is known and the request
      is partial or the announcement agrees. */
  predicate Announces(q: Request, row: Row) {
    row.size == 0 || (!q.partial && q.announced != row.size)
  }

  /** The last byte of the window that is served. */
  ghost function FinalTop(q: Request, row: Row): int {
    if !HitAtOnce(q, row) && Announces(q, row) then q.rangeMin + q.announced - 1 else FirstTop(q, row)
  }

  /** The object's size as the request leaves it in the row. */
  ghost function FinalSize(q: Request, row: Row): int {
    if !HitAtOnce(q, row) && row.size == 0 && q.partial && q.total != 0 then q.total
    else if !HitAtOnce(q, row) && Announces(q, row) && (q.rangeMax <= 0 || FirstTop(q, row) != q.rangeMax)
    then q.announced + q.rangeMin else row.size
  }

  /** The length the browser is told. */
  ghost function Reference(q: Request, row: Row): int {
    if HitAtOnce(q, row) then FinalTop(q, row) + 1 - q.rangeMin else q.announced
  }

  /** The window is one: it starts inside an object of known size, and the server announces
      a body. A window the announcement does not decide is no shorter than the announcement:
      otherwise the relay reads on when the plan is exhausted (Serve). */
  predicate Admissible(q: Request, row: Row) {
    && 0 <= q.rangeMin && (q.rangeMax <= 0 || q.rangeMin <= q.rangeMax)
    && (row.size == 0 || q.rangeMin < row.size)
    && 1 <= q.announced && q.ending <= 0 && q.ip != ""
    && (Announces(q, row) || q.announced <= FirstTop(q, row) + 1 - q.rangeMin)
  }

  /** Last byte of the plan. */
  ghost function FinalEnd(q: Request, row: Row): int { PlannedTo(ListOf(row), q.rangeMin, FinalTop(q, row)) }

  /** What the list, the server's parts and the announced length make of the transfer. */
  ghost function FinalOutcome(q: Request, row: Row): Delivery
    requires q.rangeMin <= FinalEnd(q, row) + 1
  {
    Outcome(ListOf(row), q.rangeMin, FinalEnd(q, row), FinalTop(q, row), q.chunks, Reference(q, row))
  }

  /** The browser was announced the whole window. */
  ghost predicate WindowAnnounced(q: Request, row: Row) {
    Reference(q, row) == FinalTop(q, row) + 1 - q.rangeMin
  }

  /** How a request is answered: the browser gets the origin's bytes from the start of its
      window, as many as the outcome says; when the disk ends a plan that is one byte short,
      at most the last read is missing from the plan. */
  ghost predicate Answered(origin: Origin, row: Row, q: Request, code: int, out: string) {
    var top, to := FinalTop(q, row), FinalEnd(q, row);
    && q.rangeMin <= to + 1
    && var d := FinalOutcome(q, row);
    && IsSlice(out, origin, q.rangeMin) && |out| <= top + 1 - q.rangeMin
    && |out| <= to + 1 - q.rangeMin <= top + 1 - q.rangeMin
    && if to != top && d.end.FromDisk? then DiskTail(to + 1 - q.rangeMin, Reference(q, row), code, out)
       else |out| == d.length && code == Code(d.end, q.ending)
  }

  /** `n` is what the transfer cost: what was delivered, unless the announced length cut it or
      a plan that is too short lost its last part. */
  ghost predicate Cost(row: Row, q: Request, code: int, out: string, n: int)
    requires q.rangeMin <= FinalEnd(q, row) + 1
  {
    var d := FinalOutcome(q, row);
    && |out| <= n <= FinalTop(q, row) + 1 - q.rangeMin
    && (d.end.Stopped? || (code == 0 && WindowAnnounced(q, row)) ==> n == |out|)
    && (code != 0 && !d.end.Stopped? ==> n == FinalEnd(q, row) + 1 - q.rangeMin)
  }

  /** What the accounts became of, as the next request reads them: the browser's grew by the
      cost, in the column it belongs to; when the plan overflowed, by what had been saved. */
  ghost predicate BookedIn(record: UserCache, row: Row, q: Request, row': Row, code: int, out: string)
    requires q.rangeMin <= FinalEnd(q, row) + 1
  {
    var fromCache := Knows(ListOf(row), q.rangeMin, FinalEnd(q, row) + 1);
    if FinalOutcome(q, row).end.Overflow? then
      row'.users == row.users || exists at, n :: 0 <= n <= FinalEnd(q, row) + 1 - q.rangeMin && Credits(row.users, row'.users, record, q.ip, at, n, 0)
    else
      exists n ::
        && Cost(row, q, code, out, n)
        && Credits(row.users, row'.users, record, q.ip, q.ended, if fromCache then 0 else n, if fromCache then n else 0)
  }

  /** The row a request leaves: it forgets nothing, knows what was delivered unless the plan
      overflowed, and the transfer is booked on the browser. */
  ghost predicate Recorded(record: UserCache, row: Row, q: Request, row': Row, code: int, out: string)
    requires q.rangeMin <= FinalEnd(q, row) + 1
  {
    && Extends(ListOf(row), ListOf(row'))
    && (!FinalOutcome(q, row).end.Overflow? ==> Knows(ListOf(row'), q.rangeMin, q.rangeMin + |out|))
    && row'.size == FinalSize(q, row)
    && BookedIn(record, row, q, row', code, out)
  }

  ghost predicate Handled(origin: Origin, record: UserCache, row: Row, q: Request, row': Row, code: int, out: string) {
    Answered(origin, row, q, code, out) && Recorded(record, row, q, row', code, out)
  }

  function Total(chunks: seq<string>): nat {
    if chunks == [] then 0 else |chunks[0]| + Total(chunks[1..])
  }

  lemma {:induction false} EnoughIsDelivered(chunks: seq<string>, done: int, needed: int, planned: int)
    requires needed <= planned && done + Total(chunks) == planned
    ensures var d := Delivered(chunks, done, needed, planned, false, planned);
            d.length == planned && (d.end.Cut? || d.end.FromDisk?)
    decreases |chunks|
  {
    if chunks != [] {
      EnoughIsDelivered(chunks[1..], done + |chunks[0]|, needed, planned);
    }
  }

  /** A window that was announced in full is delivered in full if and only if the plan reaches
      its end and the server's parts reached it, or the part of it the disk serves. */
  lemma WholeWindowIff(origin: Origin, row: Row, q: Request, code: int, out: string)
    requires Answered(origin, row, q, code, out) && WindowAnnounced(q, row) && q.rangeMin <= FinalTop(q, row)
    ensures var d := FinalOutcome(q, row);
            |out| == FinalTop(q, row) + 1 - q.rangeMin <==>
            FinalEnd(q, row) == FinalTop(q, row) && (d.end.Cut? || d.end.FromDisk?)
  {
    hide KnownFrom, IsSlice, ListOf, PlannedTo, HitAtOnce;
    OutcomeFacts(ListOf(row), q.rangeMin, FinalEnd(q, row), FinalTop(q, row), q.chunks, Reference(q, row));
    DeliveredLength(q.chunks, 0, KnownFrom(ListOf(row), q.rangeMin, FinalEnd(q, row) + 1) - q.rangeMin,
                    FinalEnd(q, row) + 1 - q.rangeMin, Reference(q, row));
    hide Delivered;
  }

  lemma {:induction false} DeliveredLength(chunks: seq<string>, done: int, needed: int, planned: int, reference: int)
    ensures var d := Delivered(chunks, done, needed, planned, false, reference);
            && (d.end.Cut? ==> d.length == reference)
            && (d.end.FromDisk? ==> d.length == if reference <= planned then reference else planned)
    decreases |chunks|
  {
    if chunks != [] {
      DeliveredLength(chunks[1..], done + |chunks[0]|, needed, planned, reference);
    }
  }

  /** It is when the list knows all of it, or the server's parts make all of it. */
  lemma WholeWindow(origin: Origin, row: Row, q: Request, code: int, out: string)
    requires Answered(origin, row, q, code, out) && WindowAnnounced(q, row) && q.rangeMin <= FinalTop(q, row)
    requires FinalEnd(q, row) == FinalTop(q, row)
    requires Knows(ListOf(row), q.rangeMin, FinalTop(q, row) + 1) || Total(q.chunks) == FinalTop(q, row) + 1 - q.rangeMin
    ensures |out| == FinalTop(q, row) + 1 - q.rangeMin && code == 0
  {
    hide IsSlice, ListOf, PlannedTo, HitAtOnce, Knows;
    OutcomeFacts(ListOf(row), q.rangeMin, FinalEnd(q, row), FinalTop(q, row), q.chunks, Reference(q, row));
    if Total(q.chunks) == FinalTop(q, row) + 1 - q.rangeMin {
      EnoughIsDelivered(q.chunks, 0, KnownFrom(ListOf(row), q.rangeMin, FinalEnd(q, row) + 1) - q.rangeMin,
                        FinalEnd(q, row) + 1 - q.rangeMin);
    }
    hide Delivered, KnownFrom;
  }

  /** What the list decides when the row is read. */
  lemma DecidedAtOnce(s: S.Session, row: Row, q: Request)
    requires s.Begun() && s.ListLoaded() && s.PlanIsCurrent() && s.loaded == ListOf(row)
    requires Admissible(q, row) && s.rangeMin == q.rangeMin && s.rangeMax == FirstTop(q, row)
    requires s.lrangeswork != [] <==> row.size != 0 || S.Foreseeable(s.loaded, q.rangeMin, q.rangeMax)
    requires s.lrangeswork == [] ==> !s.hit
    ensures s.hit <==> HitAtOnce(q, row)
    ensures s.lrangeswork != [] ==> q.rangeMin <= FirstTop(q, row)
    ensures row.size == 0 && s.rangeMax <= 0 ==> s.lrangeswork == []
  {
    hide Layout, Coherent, CrashSafe, WorkPlan, PlannedTo, Knows, S.RowList;
    if s.lrangeswork != [] {
      S.SameEntriesPlan(s.loaded, s.lranges, s.rangeMin, s.rangeMax);
      S.HitMeans(s.loaded, s.rangeMin, s.rangeMax);
    }
  }

  /** A request up to its first part: the row is read and the window planned, again when the
      server's announcement decides it. */
  method Begin(file: File, ghost origin: Origin, record: UserCache, row: Row, q: Request, now: int) returns (s: S.Session)
    requires ValidRow(row, file, origin) && Admissible(q, row) && !file.isOpen
    ensures fresh(s) && s.file == file && s.origin == origin
    ensures s.AtStart() && s.matched && !s.hasUpdate && s.ip == q.ip
    ensures s.loaded == ListOf(row) && s.usersText == row.users
    ensures s.rangeMin == q.rangeMin <= s.rangeMax == FinalTop(q, row) && s.sizeOrig == FinalSize(q, row)
    ensures s.planEnd == PlannedTo(s.loaded, s.rangeMin, s.rangeMax)
    ensures (HitAtOnce(q, row) ==> s.hit) && (s.hit ==> HitAtOnce(q, row) || Announces(q, row))
    ensures s.was == LoadLedger(row.users, record).users && s.foundText == row.users
  {
    hide Layout, Coherent, CrashSafe, PlannedTo, WorkPlan, S.RowList, S.Session.ListLoaded, S.Session.Begun, S.Session.PlanIsCurrent, S.Session.AtStart, S.Foreseeable, HitAtOnce;
    hide LoadLedger;
    s := new S.Session(file, origin, row.rg, row.pos, row.users, q.rangeMin, q.rangeMax, q.ip, now);
    s.ReadRow(row.size, record);
    s.BegunFacts();
    DecidedAtOnce(s, row, q);
    if !s.hit && (s.sizeOrig == 0 || (!q.partial && q.announced != s.sizeOrig)) {
      if s.sizeOrig == 0 && q.partial {
        s.ReadTotal(q.total);
      }
      s.Cache2(q.announced);
    }
    s.PlannedIsAtStart();
  }

  /** A hit was known in full when the request came; what extends the list knows it as well. */
  lemma HitIsKnown(s: S.Session)
    requires s.AtStart()
    ensures s.hit <==> Knows(s.loaded, s.rangeMin, s.planEnd + 1)
    ensures s.filesizeneto == s.rangeMax + 1 - s.rangeMin && s.ip != "" && s.rangeMin <= s.planEnd
  {
    hide Knows, S.Session.ListSound, S.Session.RowSafe;
    RestDecides(s.loaded, s.rangeMin, s.planEnd, s.lrangeswork);
    RemainingEnds(s.loaded, s.lrangeswork[0].b + 1, s.planEnd, s.lrangeswork[1..]);
  }

  lemma KnowsMore(l: seq<Interval>, m: seq<Interval>, from: int, to: int, less: int)
    requires Knows(l, from, to) && Extends(l, m) && less <= to
    ensures Knows(m, from, less)
  {
    HoldsCovers(l);
    HoldsCovers(m);
    hide Covered, Holds;
    forall k | from <= k < less ensures Covered(m, k) {
      assert Covered(l, k);
      var q :| Holds(l, k, q);
      assert Holds(m, k, q);
    }
  }

  lemma LeftRow(s: S.Session, row': Row)
    requires s.RowSafe() && s.RowCoherent() && row'.rg == s.rg && row'.pos == s.pos
    ensures ValidRow(row', s.file, s.origin) && ListOf(row') == s.saved
  {
    hide Layout, Coherent, CrashSafe, S.RowList;
  }

  /** What the request served is known afterwards. */
  lemma ServedIsKnown(s: S.Session, n: nat, wasKnown: bool)
    requires wasKnown ==> Knows(s.loaded, s.rangeMin, s.planEnd + 1) && Extends(s.loaded, s.saved) && s.rangeMin + n <= s.planEnd + 1
    requires !wasKnown ==> Knows(s.saved, s.rangeMin, s.rangeMin + s.filesended) && n <= s.filesended
    ensures Knows(s.saved, s.rangeMin, s.rangeMin + n)
  {
    hide Covered;
    if wasKnown {
      KnowsMore(s.loaded, s.saved, s.rangeMin, s.planEnd + 1, s.rangeMin + n);
    }
  }

  /** The accounts a request that stayed in the cache leaves. */
  lemma BookedAtTheEnd(s: S.Session, record: UserCache, row: Row, q: Request, row': Row, code: int, out: string)
    requires q.rangeMin <= FinalEnd(q, row) + 1 && !FinalOutcome(q, row).end.Overflow?
    requires s.was == LoadLedger(row.users, record).users && Cost(row, q, code, out, s.filesended)
    requires s.hit <==> Knows(ListOf(row), q.rangeMin, FinalEnd(q, row) + 1)
    requires s.ip == q.ip && row'.users == LedgerText(s.users)
    requires if s.hit then Billed(s.was, s.users, s.ip, q.ended, 0, s.filesended) else Billed(s.was, s.users, s.ip, q.ended, s.filesended, 0)
    ensures BookedIn(record, row, q, row', code, out)
  {
    hide Cost, Credits, Billed, LoadLedger, LedgerText, Knows, FinalEnd, FinalOutcome;
    BillCredits(row.users, s.users, record, q.ip, q.ended, if s.hit then 0 else s.filesended, if s.hit then s.filesended else 0);
  }

  /** The accounts a request that left the cache leaves. */
  lemma BookedBefore(s: S.Session, record: UserCache, row: Row, q: Request, row': Row, code: int, out: string)
    requires q.rangeMin <= FinalEnd(q, row) + 1 && FinalOutcome(q, row).end.Overflow?
    requires s.was == LoadLedger(row.users, record).users && s.foundText == row.users
    requires s.ip == q.ip && row'.users == s.usersText && s.TextBilled()
    requires 0 <= s.oldfilesended <= FinalEnd(q, row) + 1 - q.rangeMin
    ensures BookedIn(record, row, q, row', code, out)
  {
    hide Cost, Credits, Billed, LoadLedger, LedgerText, Knows, FinalEnd, FinalOutcome;
    if s.usersText != s.foundText {
      BillCredits(row.users, s.users, record, q.ip, s.touched, s.oldfilesended, 0);
    }
  }

  /** The request up to its last update. */
  method Answer(file: File, ghost origin: Origin, record: UserCache, row: Row, q: Request, now: int, clock: nat -> int)
    returns (s: S.Session, code: int, out: string)
    requires ValidRow(row, file, origin) && Admissible(q, row) && Feeds(q.chunks, origin, q.rangeMin) && !file.isOpen
    requires now > 0 && forall n :: clock(n) > 0
    modifies file
    ensures fresh(s) && s.file == file && s.origin == origin && s.Settled() && !s.hasUpdate
    ensures s.rangeMin == q.rangeMin && s.ip == q.ip && s.loaded == ListOf(row)
    ensures s.sizeOrig == FinalSize(q, row) && s.planEnd == FinalEnd(q, row)
    ensures s.was == LoadLedger(row.users, record).users && s.foundText == row.users
    ensures Answered(origin, row, q, code, out)
    ensures s.hit <==> Knows(s.loaded, q.rangeMin, s.planEnd + 1)
    ensures s.matched <==> !FinalOutcome(q, row).end.Overflow?
    ensures q.rangeMin + |out| <= s.planEnd + 1 && (s.hit ==> s.filesended > 0)
    ensures if s.matched then |out| <= s.filesended && Cost(row, q, code, out, s.filesended)
            else !s.hit && s.filesended == s.planEnd + 1 - q.rangeMin
  {
    hide ValidRow, Feeds, PlannedTo, HitAtOnce, IsSlice, Knows, LoadLedger, DiskTail;
    hide ListOf, S.Session.AtStart, S.Session.Settled, Outcome;
    s := Begin(file, origin, record, row, q, now);
    HitIsKnown(s);
    PlannedBounds(s.loaded, s.rangeMin, s.rangeMax);
    OutcomeFacts(s.loaded, s.rangeMin, s.planEnd, s.rangeMax, q.chunks, Reference(q, row));
    var beyond;
    code, out, beyond := Serve(s, q.chunks, q.ending, if s.hit then s.filesizeneto else q.announced, clock);
  }

  /** One request, from the row it finds to the row it leaves. */
  method Handle(file: File, ghost origin: Origin, record: UserCache, row: Row, q: Request, now: int, clock: nat -> int)
    returns (row': Row, code: int, out: string)
    requires ValidRow(row, file, origin) && Admissible(q, row) && Feeds(q.chunks, origin, q.rangeMin) && !file.isOpen
    requires now > 0 && q.ended > 0 && forall n :: clock(n) > 0
    modifies file
    // the cache stays coherent and is closed and durable again
    ensures ValidRow(row', file, origin) && !file.isOpen
    ensures Handled(origin, record, row, q, row', code, out)
  {
    hide ValidRow, Feeds, Extends, Knows, LedgerText, LoadLedger, ListOf, Outcome, FinalEnd, FinalSize, BookedIn, Cost, Billed;
    hide S.Session.Settled, S.Session.RowSafe, S.Session.RowCoherent, S.Session.TextBilled, Answered;
    var s;
    s, code, out := Answer(file, origin, record, row, q, now, clock);
    s.CloseUpdate(q.ended);
    row' := Row(s.rg, s.pos, s.usersText, s.sizeOrig);
    LeftRow(s, row');
    if s.matched {
      ServedIsKnown(s, |out|, s.hit);
      BookedAtTheEnd(s, record, row, q, row', code, out);
    } else {
      BookedBefore(s, record, row, q, row', code, out);
    }
  }

  lemma PlannedBounds(l: seq<Interval>, a: int, b: int)
    requires a <= b
    ensures PlannedTo(l, a, b) == b || PlannedTo(l, a, b) == b - 1
  {
    hide OneByteTail;
  }

  // ----- what is cached serves

  lemma CoveredHasNoTail(l: seq<Interval>, a: int, b: int)
    requires Covered(l, b)
    ensures PlannedTo(l, a, b) == b
  {
  }

  /** A window inside an object of known size whose bytes are all known is served by the
      disk, in full, whatever the server would do. */
  lemma KnownIsServed(origin: Origin, record: UserCache, row: Row, q: Request, row': Row, code: int, out: string)
    requires 0 <= q.rangeMin < row.size && q.rangeMax < row.size && (q.rangeMax <= 0 || q.rangeMin <= q.rangeMax)
    requires Knows(ListOf(row), q.rangeMin, if q.rangeMax <= 0 then row.size else q.rangeMax + 1)
    ensures HitAtOnce(q, row)
    ensures Handled(origin, record, row, q, row', code, out) ==>
              && code == 0 && q.rangeMin + |out| == (if q.rangeMax <= 0 then row.size else q.rangeMax + 1)
              && IsSlice(out, origin, q.rangeMin) && row'.size == row.size
  {
    hide ListOf, Covered, PlannedTo, Delivered, KnownFrom, IsSlice, Recorded;
    var top := if q.rangeMax <= 0 then row.size - 1 else q.rangeMax;
    assert FirstTop(q, row) == top;
    assert Covered(ListOf(row), top);
    CoveredHasNoTail(ListOf(row), q.rangeMin, top);
    if Handled(origin, record, row, q, row', code, out) {
      assert Recorded(record, row, q, row', code, out);
      WholeWindow(origin, row, q, code, out);
      SizeOfHit(record, row, q, row', code, out);
    }
  }

  lemma SizeOfHit(record: UserCache, row: Row, q: Request, row': Row, code: int, out: string)
    requires q.rangeMin <= FinalEnd(q, row) + 1 && Recorded(record, row, q, row', code, out) && HitAtOnce(q, row)
    ensures row'.size == row.size
  {
    hide Knows, FinalEnd, BookedIn;
  }

  /** The size a request leaves in the row when it is not served by the disk at once. */
  lemma SizeLaw(origin: Origin, record: UserCache, row: Row, q: Request, row': Row, code: int, out: string)
    requires Handled(origin, record, row, q, row', code, out) && !HitAtOnce(q, row)
    // an open window that is not a partial request tells the size: one more than its last byte
    ensures !q.partial && q.rangeMax <= 0 && q.announced != row.size ==> row'.size == q.rangeMin + q.announced
    // so does one that was cut at a size the announcement contradicts
    ensures !q.partial && row.size != 0 && q.rangeMin + 1 < row.size <= q.rangeMax && q.announced != row.size ==>
              row'.size == q.rangeMin + q.announced
    // a partial answer names it; without its word an open window tells it
    ensures q.partial && row.size == 0 && q.total != 0 ==> row'.size == q.total
    ensures q.partial && row.size == 0 && q.total == 0 && q.rangeMax <= 0 ==> row'.size == q.rangeMin + q.announced
    // a closed window tells nothing, and a partial request does not change a known size
    ensures row.size == 0 && 0 < q.rangeMax && !q.partial ==> row'.size == 0
    ensures q.partial && row.size != 0 ==> row'.size == row.size
    ensures row.size != 0 && (q.announced == row.size || 0 < q.rangeMax < row.size) ==> row'.size == row.size
  {
    hide HitAtOnce, Answered, BookedIn, FinalEnd, Knows, ListOf;
    assert Recorded(record, row, q, row', code, out);
  }

  /** A window the server announces is delivered in full when the server gives all of it and
      the window does not end one byte behind everything stored. */
  lemma AnnouncedIsDelivered(origin: Origin, record: UserCache, row: Row, q: Request, row': Row, code: int, out: string)
    requires Handled(origin, record, row, q, row', code, out) && Admissible(q, row) && !HitAtOnce(q, row)
    requires row.size == 0 || (!q.partial && q.announced != row.size)
    requires Total(q.chunks) == q.announced && !OneByteTail(ListOf(row), q.rangeMin, q.rangeMin + q.announced - 1)
    ensures |out| == q.announced && code == 0
  {
    hide ListOf, Knows, HitAtOnce, OneByteTail, Recorded, IsSlice, Delivered, KnownFrom;
    WholeWindow(origin, row, q, code, out);
  }

  /** The cache caches: after a first download that delivered all it announced, every window
      inside the object is served by the disk alone, in full. */
  lemma DownloadedIsServed(origin: Origin, record: UserCache, row: Row, q: Request, row': Row, code: int, out: string,
                           q': Request, row'': Row, code': int, out': string)
    requires Handled(origin, record, row, q, row', code, out) && Admissible(q, row)
    requires row.size == 0 && q.rangeMin == 0 && q.rangeMax <= 0 && !q.partial
    requires code == 0 && |out| == q.announced
    requires 0 <= q'.rangeMin < |out| && q'.rangeMax < |out| && (q'.rangeMax <= 0 || q'.rangeMin <= q'.rangeMax)
    ensures row'.size == |out| && Knows(ListOf(row'), 0, |out|) && HitAtOnce(q', row')
    ensures Handled(origin, record, row', q', row'', code', out') ==>
              && code' == 0 && |out'| == (if q'.rangeMax <= 0 then |out| else q'.rangeMax + 1) - q'.rangeMin
              && out' == out[q'.rangeMin..][..|out'|]
  {
    hide ListOf, Covered, PlannedTo, Handled;
    OpenIsNoHit(q, row);
    SizeLaw(origin, record, row, q, row', code, out);
    DeliveredIsKnown(origin, record, row, q, row', code, out);
    KnownIsServed(origin, record, row', q', row'', code', out');
    SliceOfHandled(origin, record, row, q, row', code, out);
  }

  lemma SliceOfHandled(origin: Origin, record: UserCache, row: Row, q: Request, row': Row, code: int, out: string)
    requires Handled(origin, record, row, q, row', code, out)
    ensures IsSlice(out, origin, q.rangeMin)
  {
    hide Recorded, FinalEnd, FinalOutcome;
  }

  lemma OpenIsNoHit(q: Request, row: Row)
    requires row.size == 0 && q.rangeMax <= 0
    ensures !HitAtOnce(q, row)
  {
  }

  lemma DeliveredIsKnown(origin: Origin, record: UserCache, row: Row, q: Request, row': Row, code: int, out: string)
    requires Handled(origin, record, row, q, row', code, out) && code == 0
    ensures Knows(ListOf(row'), q.rangeMin, q.rangeMin + |out|)
  {
    hide Knows, FinalEnd, FinalOutcome, BookedIn, ListOf, IsSlice, Extends, FinalSize;
  }

  // ----- any number of requests

  /** One request of a run: answered, or turned away without a trace. */
  ghost predicate Step(origin: Origin, record: UserCache, row: Row, q: Request, row': Row, code: int, out: string) {
    if Admissible(q, row) then Handled(origin, record, row, q, row', code, out)
    else row' == row && out == "" && code == 0
  }

  lemma StepExtends(origin: Origin, record: UserCache, row: Row, q: Request, row': Row, code: int, out: string)
    requires Step(origin, record, row, q, row', code, out)
    ensures Extends(ListOf(row), ListOf(row'))
  {
    hide ListOf, BookedIn, Answered;
  }

  /** `rows` are the rows the requests found, and the one the last of them left. */
  ghost predicate Trace(origin: Origin, record: UserCache, rows: seq<Row>, requests: seq<Request>, codes: seq<int>, outs: seq<string>) {
    && |rows| == |codes| + 1 && |codes| == |outs| <= |requests|
    && forall i :: 0 <= i < |codes| ==> Step(origin, record, rows[i], requests[i], rows[i + 1], codes[i], outs[i])
  }

  /** No byte once cached is lost by any later request. */
  ghost predicate NothingLost(rows: seq<Row>) {
    forall i, j :: 0 <= i <= j < |rows| ==> Extends(ListOf(rows[i]), ListOf(rows[j]))
  }

  lemma TraceGrows(origin: Origin, record: UserCache, rows: seq<Row>, requests: seq<Request>, codes: seq<int>, outs: seq<string>,
                   row': Row, code: int, out: string)
    requires Trace(origin, record, rows, requests, codes, outs) && NothingLost(rows) && |codes| < |requests|
    requires Step(origin, record, rows[|codes|], requests[|codes|], row', code, out)
    ensures Trace(origin, record, rows + [row'], requests, codes + [code], outs + [out]) && NothingLost(rows + [row'])
  {
    StepExtends(origin, record, rows[|codes|], requests[|codes|], row', code, out);
    hide Step, Extends, ListOf;
    forall i, j | 0 <= i <= j < |rows + [row']| ensures Extends(ListOf((rows + [row'])[i]), ListOf((rows + [row'])[j])) {
      if j == |rows| {
        if i == |rows| {
          ExtendsItself(ListOf(row'));
        } else {
          ExtendsTwice(ListOf(rows[i]), ListOf(rows[|codes|]), ListOf(row'));
        }
      }
    }
  }

  lemma ExtendsTwice(l: seq<Interval>, m: seq<Interval>, n: seq<Interval>)
    requires Extends(l, m) && Extends(m, n)
    ensures Extends(l, n)
  {
    hide Holds;
  }

  lemma ExtendsItself(l: seq<Interval>)
    ensures Extends(l, l)
  {
    hide Holds;
  }

  /** Any number of requests for one file, one after the other: each is answered as its row,
      its server and its window say, and no byte once cached is lost. */
  method Run(file: File, ghost origin: Origin, record: UserCache, row: Row, requests: seq<Request>, now: int, clock: nat -> int)
    returns (row': Row, codes: seq<int>, outs: seq<string>, ghost rows: seq<Row>)
    requires ValidRow(row, file, origin) && !file.isOpen && now > 0 && forall n :: clock(n) > 0
    requires forall i :: 0 <= i < |requests| ==> requests[i].ended > 0 && Feeds(requests[i].chunks, origin, requests[i].rangeMin)
    modifies file
    ensures ValidRow(row', file, origin) && !file.isOpen
    ensures |outs| == |requests| && Trace(origin, record, rows, requests, codes, outs) && NothingLost(rows)
    ensures rows[0] == row && rows[|requests|] == row'
  {
    hide ValidRow, Handled, Feeds, Extends, NothingLost, Trace, FirstTop;
    row', codes, outs, rows := row, [], [], [row];
    TraceStarts(origin, record, row, requests);
    while |outs| < |requests|
      invariant |codes| == |outs| <= |requests| && |rows| == |outs| + 1
      invariant rows[0] == row && rows[|outs|] == row'
      invariant ValidRow(row', file, origin) && !file.isOpen
      invariant Trace(origin, record, rows, requests, codes, outs) && NothingLost(rows)
      decreases |requests| - |outs|
    {
      var q := requests[|outs|];
      var next, code, out := row', 0, "";
      if Admissible(q, row') {
        next, code, out := Handle(file, origin, record, row', q, now, clock);
      }
      TraceGrows(origin, record, rows, requests, codes, outs, next, code, out);
      row', codes, outs, rows := next, codes + [code], outs + [out], rows + [next];
    }
  }

  lemma TraceStarts(origin: Origin, record: UserCache, row: Row, requests: seq<Request>)
    ensures Trace(origin, record, [row], requests, [], []) && NothingLost([row])
  {
    ExtendsItself(ListOf(row));
  }

  // ----- the accounts over a run

  ghost function AccountsOf(row: Row, record: UserCache): seq<UserCache> { LoadLedger(row.users, record).users }

  /** What one request was charged. */
  datatype Charge = Charge(downloaded: nat, requested: nat)

  /** The accounts of a row after a charge. */
  ghost predicate Charged(was: seq<UserCache>, now: seq<UserCache>, ip: string, c: Charge) {
    forall who ::
      && Booked(now, who) == Booked(was, who) + (if who == ip then c.downloaded else 0)
      && Requested(now, who) == Requested(was, who) + (if who == ip then c.requested else 0)
  }

  /** Accounts the column can hold, of the given browsers. */
  ghost predicate OfBrowsers(luc: seq<UserCache>, browsers: set<string>) {
    Clean(luc) && Among(luc, browsers)
  }

  /** The charge fits the answer: one column only, and what the transfer cost. */
  ghost predicate FairCharge(row: Row, q: Request, code: int, out: string, c: Charge) {
    if Admissible(q, row) && q.rangeMin <= FinalEnd(q, row) + 1 then
      if FinalOutcome(q, row).end.Overflow? then c.requested == 0 && c.downloaded <= FinalEnd(q, row) + 1 - q.rangeMin
      else if Knows(ListOf(row), q.rangeMin, FinalEnd(q, row) + 1) then c.downloaded == 0 && Cost(row, q, code, out, c.requested)
      else c.requested == 0 && Cost(row, q, code, out, c.downloaded)
    else c == Charge(0, 0)
  }

  lemma StepCharges(origin: Origin, record: UserCache, row: Row, q: Request, row': Row, code: int, out: string, browsers: set<string>)
    returns (c: Charge)
    requires Step(origin, record, row, q, row', code, out)
    requires OfBrowsers(AccountsOf(row, record), browsers) && q.ip in browsers && CleanIp(q.ip) && |browsers| <= LIMIT_USERS
    ensures OfBrowsers(AccountsOf(row', record), browsers) && FairCharge(row, q, code, out, c)
    ensures Charged(AccountsOf(row, record), AccountsOf(row', record), q.ip, c)
  {
    hide Credits, Clean, Among, Knows, LoadLedger, FinalOutcome, FinalEnd, Admissible, Cost, Booked, Requested, CleanIp;
    c := Charge(0, 0);
    if Admissible(q, row) {
      var fromCache := Knows(ListOf(row), q.rangeMin, FinalEnd(q, row) + 1);
      if FinalOutcome(q, row).end.Overflow? {
        if row'.users != row.users {
          var at, n :| 0 <= n <= FinalEnd(q, row) + 1 - q.rangeMin && Credits(row.users, row'.users, record, q.ip, at, n, 0);
          CreditsAmongFew(row.users, row'.users, record, q.ip, at, n, 0, browsers);
          c := Charge(n, 0);
        }
      } else {
        var n :| Cost(row, q, code, out, n)
                 && Credits(row.users, row'.users, record, q.ip, q.ended, if fromCache then 0 else n, if fromCache then n else 0);
        CostIsNat(row, q, code, out, n);
        CreditsAmongFew(row.users, row'.users, record, q.ip, q.ended, if fromCache then 0 else n, if fromCache then n else 0, browsers);
        c := if fromCache then Charge(0, n) else Charge(n, 0);
      }
    }
  }

  lemma CostIsNat(row: Row, q: Request, code: int, out: string, n: int)
    requires q.rangeMin <= FinalEnd(q, row) + 1 && Cost(row, q, code, out, n)
    ensures 0 <= n
  {
    hide FinalOutcome, FinalEnd, FinalTop;
  }

  /** What `who` was charged in the first requests. */
  function TotalCharge(requests: seq<Request>, charges: seq<Charge>, who: string): Charge
    requires |charges| <= |requests|
    decreases |charges|
  {
    if charges == [] then Charge(0, 0)
    else
      var n := |charges| - 1;
      var before := TotalCharge(requests, charges[..n], who);
      if requests[n].ip == who
      then Charge(before.downloaded + charges[n].downloaded, before.requested + charges[n].requested)
      else before
  }

  /** The accounts are conserved over any number of requests of at most ten browsers: in the
      end each has what it had and what its own requests were charged. */
  lemma {:induction false} RunCharges(origin: Origin, record: UserCache, rows: seq<Row>, requests: seq<Request>, codes: seq<int>,
                                      outs: seq<string>, browsers: set<string>)
    returns (charges: seq<Charge>)
    requires Trace(origin, record, rows, requests, codes, outs)
    requires OfBrowsers(AccountsOf(rows[0], record), browsers) && |browsers| <= LIMIT_USERS
    requires forall q :: q in requests ==> q.ip in browsers && CleanIp(q.ip)
    ensures |charges| == |codes| && forall i :: 0 <= i < |codes| ==> FairCharge(rows[i], requests[i], codes[i], outs[i], charges[i])
    ensures OfBrowsers(AccountsOf(rows[|codes|], record), browsers)
    ensures forall who ::
              var total := TotalCharge(requests, charges, who);
              && Booked(AccountsOf(rows[|codes|], record), who) == Booked(AccountsOf(rows[0], record), who) + total.downloaded
              && Requested(AccountsOf(rows[|codes|], record), who) == Requested(AccountsOf(rows[0], record), who) + total.requested
    decreases |codes|
  {
    hide Step, FairCharge, OfBrowsers, LoadLedger, Booked, Requested, CleanIp;
    charges := [];
    if codes != [] {
      var n := |codes| - 1;
      TraceFront(origin, record, rows, requests, codes, outs);
      var before := RunCharges(origin, record, rows[..n + 1], requests, codes[..n], outs[..n], browsers);
      var c := StepCharges(origin, record, rows[n], requests[n], rows[n + 1], codes[n], outs[n], browsers);
      charges := before + [c];
      assert charges[..n] == before;
    }
  }

  lemma TraceFront(origin: Origin, record: UserCache, rows: seq<Row>, requests: seq<Request>, codes: seq<int>, outs: seq<string>)
    requires Trace(origin, record, rows, requests, codes, outs) && codes != []
    ensures var n := |codes| - 1;
            && Trace(origin, record, rows[..n + 1], requests, codes[..n], outs[..n])
            && Step(origin, record, rows[n], requests[n], rows[n + 1], codes[n], outs[n])
  {
    hide Step;
  }
}
