/** Several sessions on one file: what the lease is for. A session reads the row when it got
    the file, works on row and cache file, and frees them; as long as nobody takes the file from
    a session that holds it, the requests come out as if they had come one after the other. */
module Shared {
  import opened Intervals
  import opened Ledger
  import opened CacheFile
  import opened Blocks
  import opened Serve
  import L = Lease

  /** What sessions share: the row and the cache file. */
  datatype Content = Content(row: Row, data: string)

  /** One request at work: what it found, and what it left last. */
  datatype Episode = Episode(found: Content, left: Content)

  datatype View = Outside | Inside(e: Episode)

  /** `log` lists the finished requests. */
  datatype State = State(lease: L.State, content: Content, views: seq<View>, log: seq<Episode>)

  datatype Step =
    | Lease(step: L.Step)
    | Read(p: nat)                                  // Cache reads the row it has locked
    | Work(p: nat, content: Content, saves: bool)   // bytes are written, or the row is saved

  ghost predicate IsInside(s: State, p: int) { 0 <= p < |s.views| && s.views[p].Inside? }

  ghost predicate Enabled(s: State, step: Step) {
    && |s.views| == |s.lease.sessions|
    && match step
       case Lease(step) => L.Enabled(s.lease, step)
       case Read(p) => L.Holding(s.lease, p) && !IsInside(s, p)
       case Work(p, _, _) => L.Holding(s.lease, p) && IsInside(s, p)
  }

  /** The session whose request ends with the step: it frees the file, or goes for the next
      lock. */
  function Closing(s: State, step: L.Step): (p: int)
    ensures p == -1 || 0 <= p
  {
    match step
    case Acquire(p, _) => p
    case Release(p, dbOk) => if p < |s.lease.sessions| && s.lease.sessions[p].Holds() && dbOk then p else -1
    case Refresh(_) => -1
    case Touch(_) => -1
    case Pass(_) => -1
  }

  ghost function Closed(s: State, p: int): State {
    if IsInside(s, p) then s.(views := s.views[p := Outside], log := s.log + [s.views[p].e]) else s
  }

  ghost function Next(s: State, step: Step): State
    requires Enabled(s, step)
  {
    match step
    case Lease(step) => Closed(s, Closing(s, step)).(lease := L.Next(s.lease, step))
    case Read(p) => s.(views := s.views[p := Inside(Episode(s.content, s.content))])
    case Work(p, content, saves) =>
      s.(content := content, views := s.views[p := Inside(s.views[p].e.(left := content))],
         lease := if saves then L.Next(s.lease, L.Refresh(p)) else s.lease)
  }

  // ----- what every step keeps

  /** Every session at work holds the file, and what it left last is what is there: no session
      overwrites what it has not seen. */
  ghost predicate Knowing(s: State) {
    forall p :: IsInside(s, p) ==> L.Holding(s.lease, p) && s.views[p].e.left == s.content
  }

  ghost function Last(first: Content, log: seq<Episode>): Content {
    if log == [] then first else log[|log| - 1].left
  }

  /** The finished requests happened one after the other from `first` on, and so does the one
      at work. */
  ghost predicate Serial(first: Content, s: State) {
    && (forall i :: 0 <= i < |s.log| ==> s.log[i].found == Last(first, s.log[..i]))
    && (forall p :: IsInside(s, p) ==> s.views[p].e.found == Last(first, s.log))
    && ((forall p :: !IsInside(s, p)) ==> s.content == Last(first, s.log))
  }

  ghost predicate Exclusive(first: Content, s: State) {
    && |s.views| == |s.lease.sessions|
    && L.OneHolder(s.lease) && L.Marked(s.lease) && Knowing(s) && Serial(first, s)
  }

  ghost predicate Steals(s: State, step: Step) { step.Lease? && L.Steals(s.lease, step.step) }

  /** A request that ends is the last of the log. */
  lemma CloseIsSerial(first: Content, s: State, p: int)
    requires Exclusive(first, s)
    ensures Exclusive(first, Closed(s, p)) && !IsInside(Closed(s, p), p)
  {
    hide L.Marked;
    var t := Closed(s, p);
    if IsInside(s, p) {
      assert forall q :: L.Holding(s.lease, q) ==> q == p;
      assert forall i :: 0 <= i < |s.log| ==> t.log[..i] == s.log[..i];
      assert t.log[..|s.log|] == s.log;
    }
  }

  /** Only a session that held the file, or gets it, holds it after a step of the lease. */
  lemma LeaseKeepsHolders(s: State, step: L.Step)
    requires L.Enabled(s.lease, step)
    ensures |L.Next(s.lease, step).sessions| == |s.lease.sessions|
    ensures forall p :: L.Holding(s.lease, p) && p != Closing(s, step) ==> L.Holding(L.Next(s.lease, step), p)
  {
  }

  lemma StepKeeps(first: Content, s: State, step: Step)
    requires Enabled(s, step) && Exclusive(first, s) && !Steals(s, step)
    ensures Exclusive(first, Next(s, step))
  {
    match step {
      case Lease(l) =>
        CloseIsSerial(first, s, Closing(s, l));
        L.StepExclusion(s.lease, l);
        LeaseKeepsHolders(s, l);
        LeaseMoves(first, Closed(s, Closing(s, l)), L.Next(s.lease, l));
      case Read(p) =>
        assert forall q :: L.Holding(s.lease, q) ==> q == p;
        hide L.Marked, L.Holding;
      case Work(p, content, saves) =>
        WorkKeeps(first, s, p, content);
        if saves {
          var t := Next(s, Work(p, content, false));
          L.StepExclusion(t.lease, L.Refresh(p));
          LeaseKeepsHolders(t, L.Refresh(p));
          LeaseMoves(first, t, L.Next(t.lease, L.Refresh(p)));
        }
    }
  }

  /** The lease may move on under sessions that go on holding the file. */
  lemma LeaseMoves(first: Content, s: State, lease: L.State)
    requires Exclusive(first, s) && L.OneHolder(lease) && L.Marked(lease) && |lease.sessions| == |s.lease.sessions|
    requires forall p :: IsInside(s, p) ==> L.Holding(lease, p)
    ensures Exclusive(first, s.(lease := lease))
  {
    hide L.Marked, L.OneHolder, L.Holding;
    var t := s.(lease := lease);
    assert forall p :: IsInside(t, p) <==> IsInside(s, p);
  }

  lemma WorkKeeps(first: Content, s: State, p: nat, content: Content)
    requires Enabled(s, Work(p, content, false)) && Exclusive(first, s)
    ensures Exclusive(first, Next(s, Work(p, content, false)))
  {
    var t := Next(s, Work(p, content, false));
    assert forall q :: L.Holding(s.lease, q) ==> q == p;
    hide L.Marked, L.Holding;
    assert IsInside(t, p);
  }

  // ----- runs

  ghost predicate Run(s: State, steps: seq<Step>)
    decreases |steps|
  {
    steps != [] ==> Enabled(s, steps[0]) && Run(Next(s, steps[0]), steps[1..])
  }

  ghost function Final(s: State, steps: seq<Step>): State
    requires Run(s, steps)
    decreases |steps|
  {
    if steps == [] then s else Final(Next(s, steps[0]), steps[1..])
  }

  ghost predicate NeverStolen(s: State, steps: seq<Step>)
    requires Run(s, steps)
    decreases |steps|
  {
    steps != [] ==> !Steals(s, steps[0]) && NeverStolen(Next(s, steps[0]), steps[1..])
  }

  /** In every state of the run the requests are one after the other, and the session at work
      knows what is there. */
  ghost predicate AlwaysSerial(first: Content, s: State, steps: seq<Step>)
    requires Run(s, steps)
    decreases |steps|
  {
    Knowing(s) && Serial(first, s) && (steps != [] ==> AlwaysSerial(first, Next(s, steps[0]), steps[1..]))
  }

  ghost predicate Initial(s: State) {
    && L.Initial(s.lease) && |s.views| == |s.lease.sessions| && s.log == []
    && forall p :: !IsInside(s, p)
  }

  /** As long as no held file is taken, no update is lost: everything saved was saved by a
      session that had seen all that was there. */
  lemma {:induction false} SerialUnlessStolen(first: Content, s: State, steps: seq<Step>)
    requires Run(s, steps) && Exclusive(first, s) && NeverStolen(s, steps)
    ensures AlwaysSerial(first, s, steps) && Exclusive(first, Final(s, steps))
    decreases |steps|
  {
    hide Next, Knowing, Serial;
    if steps != [] {
      StepKeeps(first, s, steps[0]);
      SerialUnlessStolen(first, Next(s, steps[0]), steps[1..]);
    }
  }

  /** A file taken from a session at work: whatever that one saves next, the other has not
      seen it, and overwrites it with what it saves itself. */
  lemma StolenIsLost(s: State, p: nat, q: nat, lost: Content, saved: Content)
    requires |s.views| == |s.lease.sessions| && q < |s.views| && p != q
    requires IsInside(s, p) && L.Holding(s.lease, p) && !IsInside(s, q) && L.Stale(s.lease)
    ensures var take := Lease(L.Acquire(q, true));
            && Enabled(s, take) && Steals(s, take)
            && var s1 := Next(s, take);
            && Enabled(s1, Read(q))
            && var s2 := Next(s1, Read(q));
            && Enabled(s2, Work(p, lost, true))
            && var s3 := Next(s2, Work(p, lost, true));
            && Enabled(s3, Work(q, saved, true))
            && var s4 := Next(s3, Work(q, saved, true));
            && s4.content == saved
            && s4.views[p] == Inside(s.views[p].e.(left := lost)) && s4.views[q] == Inside(Episode(s.content, saved))
  {
  }

  // ----- whole requests

  /** The row's list is valid and agrees with the file. */
  ghost predicate Fit(c: Content, origin: Origin) {
    Layout(ListOf(c.row)) && Coherent(ListOf(c.row), c.data, origin)
  }

  /** What a request does on its own, when the content it finds is fit (Serve.Handle). */
  ghost predicate Served(origin: Origin, record: UserCache, e: Episode) {
    Fit(e.found, origin) ==>
      && Fit(e.left, origin)
      && exists q, code, out :: Serve.Step(origin, record, e.found.row, q, e.left.row, code, out)
  }

  /** A request alone with the file. */
  method Alone(file: File, ghost origin: Origin, record: UserCache, row: Row, q: Request, now: int, clock: nat -> int)
    returns (row': Row, code: int, out: string)
    requires ValidRow(row, file, origin) && Admissible(q, row) && Feeds(q.chunks, origin, q.rangeMin) && !file.isOpen
    requires now > 0 && q.ended > 0 && forall n :: clock(n) > 0
    modifies file
    ensures Served(origin, record, Episode(Content(row, old(file.data)), Content(row', file.data)))
    ensures ValidRow(row', file, origin) && !file.isOpen
  {
    hide Layout, Coherent, CrashSafe, ListOf, Handled, Feeds;
    row', code, out := Handle(file, origin, record, row, q, now, clock);
    assert Serve.Step(origin, record, row, q, row', code, out);
  }

  function Rows(first: Content, log: seq<Episode>): (r: seq<Row>)
    ensures |r| == |log| + 1 && r[0] == first.row
    ensures forall i :: 0 <= i < |log| ==> r[i + 1] == log[i].left.row
  {
    [first.row] + seq(|log|, i requires 0 <= i < |log| => log[i].left.row)
  }

  lemma RowsMore(first: Content, log: seq<Episode>, e: Episode)
    ensures Rows(first, log + [e]) == Rows(first, log) + [e.left.row]
    ensures Rows(first, log)[|log|] == Last(first, log).row
  {
  }

  /** A log of requests one after the other, each as it is on its own, is a run of Serve. */
  lemma {:induction false} LogIsTrace(origin: Origin, record: UserCache, first: Content, log: seq<Episode>)
    returns (requests: seq<Request>, codes: seq<int>, outs: seq<string>)
    requires Fit(first, origin) && forall e :: e in log ==> Served(origin, record, e)
    requires forall i :: 0 <= i < |log| ==> log[i].found == Last(first, log[..i])
    ensures |requests| == |codes| == |log| && Trace(origin, record, Rows(first, log), requests, codes, outs)
    ensures NothingLost(Rows(first, log)) && Fit(Last(first, log), origin)
    decreases |log|
  {
    hide Fit, Serve.Step, Trace, NothingLost, Rows;
    if log == [] {
      requests, codes, outs := [], [], [];
      TraceStarts(origin, record, first.row, []);
      assert Rows(first, log) == [first.row];
    } else {
      var before, e := log[..|log| - 1], log[|log| - 1];
      assert log == before + [e];
      assert forall i :: 0 <= i < |before| ==> before[..i] == log[..i];
      requests, codes, outs := LogIsTrace(origin, record, first, before);
      assert e in log && log[|before|] == e;
      requests, codes, outs := OneMore(origin, record, first, before, e, requests, codes, outs);
    }
  }

  lemma OneMore(origin: Origin, record: UserCache, first: Content, before: seq<Episode>, e: Episode,
                requests: seq<Request>, codes: seq<int>, outs: seq<string>)
    returns (requests': seq<Request>, codes': seq<int>, outs': seq<string>)
    requires |requests| == |codes| == |before| && Trace(origin, record, Rows(first, before), requests, codes, outs)
    requires NothingLost(Rows(first, before)) && Fit(Last(first, before), origin)
    requires Served(origin, record, e) && e.found == Last(first, before)
    ensures |requests'| == |codes'| == |before| + 1 && Trace(origin, record, Rows(first, before + [e]), requests', codes', outs')
    ensures NothingLost(Rows(first, before + [e])) && Fit(e.left, origin)
  {
    hide Fit, Serve.Step, Trace, NothingLost, Rows;
    var q, code, out :| Serve.Step(origin, record, e.found.row, q, e.left.row, code, out);
    var rows := Rows(first, before);
    RowsMore(first, before, e);
    MoreRequests(origin, record, rows, requests, q, codes, outs);
    TraceGrows(origin, record, rows, requests + [q], codes, outs, e.left.row, code, out);
    requests', codes', outs' := requests + [q], codes + [code], outs + [out];
  }

  lemma MoreRequests(origin: Origin, record: UserCache, rows: seq<Row>, requests: seq<Request>, q: Request, codes: seq<int>, outs: seq<string>)
    requires Trace(origin, record, rows, requests, codes, outs)
    ensures Trace(origin, record, rows, requests + [q], codes, outs)
  {
    hide Serve.Step;
  }

  /** Any number of sessions on one file: unless a held file is taken, the rows their requests
      leave are those of a run of Serve, each request answered for the row it found; no byte
      once cached is lost, and whenever nobody is at work, row and file agree. */
  lemma ConcurrentRequests(origin: Origin, record: UserCache, s: State, steps: seq<Step>)
    returns (requests: seq<Request>, codes: seq<int>, outs: seq<string>)
    requires Initial(s) && Run(s, steps) && NeverStolen(s, steps) && Fit(s.content, origin)
    requires forall e :: e in Final(s, steps).log ==> Served(origin, record, e)
    ensures var t := Final(s, steps);
            var rows := Rows(s.content, t.log);
            && |codes| == |t.log| && Trace(origin, record, rows, requests, codes, outs) && NothingLost(rows)
            && ((forall p :: !IsInside(t, p)) ==> Fit(t.content, origin) && t.content.row == rows[|t.log|])
  {
    hide Fit, Served, Trace, NothingLost;
    assert forall p :: !L.Holding(s.lease, p);
    SerialUnlessStolen(s.content, s, steps);
    requests, codes, outs := LogIsTrace(origin, record, s.content, Final(s, steps).log);
  }
}
