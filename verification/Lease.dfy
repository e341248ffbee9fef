/** The lease that serialises sessions on a file: the row's `file_used` flag, its two time
    stamps, and the two flags by which a session knows whether the lease is its own.

    Every statement a session sends to the database is one atomic step; a clock runs beside
    them. The row carries no owner. */
module Lease {

  /** Seconds after which a lease nobody refreshed may be taken. */
  const LEASE_SECONDS: int := 30

  /** A time stamp column, in seconds. */
  datatype Time = Null | At(seconds: int)

  datatype Row = NoRow | Row(modified: Time, lastRequest: Time, fileUsed: bool)

  /** GREATEST: NULL as soon as one of the two is. */
  function Greatest(x: Time, y: Time): Time {
    if x.Null? || y.Null? then Null else if x.seconds >= y.seconds then x else y
  }

  function Abs(x: int): int { if x < 0 then -x else x }

  /** lockFile(0) as one transaction at time `now`; a failing database, or a row in use
      whose stamps cannot be compared, rolls back. */
  function Locked(row: Row, now: int, dbOk: bool): (Row, int) {
    if !dbOk then (row, -1)
    else match row
      case NoRow => (Row(At(now), At(now), true), 1)
      case Row(modified, lastRequest, used) =>
        if !used then (Row(At(now), lastRequest, true), 1)
        else match Greatest(modified, lastRequest)
          case Null => (row, -1)
          case At(t) => if Abs(now - t) <= LEASE_SECONDS then (row, 0) else (Row(At(now), lastRequest, true), 1)
  }

  predicate FarFrom(now: int, x: int, y: int) {
    var t := if x >= y then x else y;
    now > t + 30 || now < t - 30
  }

  /** The row in the database. */
  class FileRow {
    var row: Row

    constructor (row: Row)
      ensures this.row == row
    {
      this.row := row;
    }

    method LockFile(now: int, dbOk: bool) returns (code: int)
      modifies this
      ensures (row, code) == Locked(old(row), now, dbOk)
      // taken: a new row, an unused one, or one whose later stamp is more than 30 seconds away
      ensures code == 1 <==>
                dbOk && (old(row).NoRow? || !old(row).fileUsed
                         || (old(row).modified.At? && old(row).lastRequest.At? && FarFrom(now, old(row).modified.seconds, old(row).lastRequest.seconds)))
      ensures code == -1 <==>
                !dbOk || (old(row).Row? && old(row).fileUsed && (old(row).modified.Null? || old(row).lastRequest.Null?))
      ensures code == 1 || code == 0 || code == -1
      ensures row == if code == 1 then Row(At(now), if old(row).NoRow? then At(now) else old(row).lastRequest, true) else old(row)
    {
      if !dbOk {
        return -1;
      }
      if row.NoRow? {
        row := Row(At(now), At(now), true);
        return 1;
      }
      var greatest := Greatest(row.modified, row.lastRequest);
      if !row.fileUsed {
        row := row.(modified := At(now), fileUsed := true);
        return 1;
      }
      if greatest.Null? {
        return -1;
      }
      if Abs(now - greatest.seconds) <= LEASE_SECONDS {
        return 0;
      }
      row := row.(modified := At(now), fileUsed := true);
      code := 1;
    }

    method Free()
      modifies this
      ensures row == if old(row).NoRow? then NoRow else old(row).(fileUsed := false)
    {
      if row.Row? {
        row := row.(fileUsed := false);
      }
    }
  }

  /** A session's side of the lease. `last` is when it took or refreshed it, `acquired` and
      `released` count its own transactions. */
  datatype Editor = Editor(existsTransaction: bool, wasLiberate: bool, last: int, acquired: nat, released: nat) {
    predicate Holds() { !existsTransaction && !wasLiberate }
  }

  /** The flags as Cache leaves them after lockFile returned `code`. */
  function AfterLock(e: Editor, code: int, now: int): Editor {
    if code <= 0 then e.(existsTransaction := true, wasLiberate := false)
    else e.(existsTransaction := false, wasLiberate := false, last := now, acquired := e.acquired + 1)
  }

  /** The flags after liberate_edition. */
  function AfterLiberate(e: Editor, dbOk: bool): Editor {
    if e.Holds() && dbOk then e.(wasLiberate := true, released := e.released + 1) else e
  }

  class Session {
    const file: FileRow
    var flags: Editor

    constructor (file: FileRow)
      ensures this.file == file && flags == Editor(true, false, 0, 0, 0)
    {
      this.file := file;
      flags := Editor(true, false, 0, 0, 0);
    }

    /** The lock of Cache: flags are reset, then the row is tried. */
    method Acquire(now: int, dbOk: bool)
      modifies this, file
      ensures file.row == Locked(old(file.row), now, dbOk).0
      ensures flags == AfterLock(old(flags), Locked(old(file.row), now, dbOk).1, now)
    {
      flags := flags.(existsTransaction := true, wasLiberate := false);
      var lfile := file.LockFile(now, dbOk);
      if lfile <= 0 {
        return;
      }
      flags := flags.(existsTransaction := false, last := now, acquired := flags.acquired + 1);
    }

    /** liberate_edition. */
    method LiberateEdition(dbOk: bool) returns (re: bool)
      modifies this, file
      ensures flags == AfterLiberate(old(flags), dbOk)
      ensures file.row == if old(flags).Holds() && dbOk then Freed(old(file.row)) else old(file.row)
    {
      if flags.wasLiberate || flags.existsTransaction {
        return true;
      }
      if dbOk {
        file.Free();
        flags := flags.(wasLiberate := true, released := flags.released + 1);
      }
      re := !dbOk;
    }
  }

  function Freed(row: Row): Row {
    if row.NoRow? then NoRow else row.(fileUsed := false)
  }

  // ----- runs of many sessions over one row

  datatype State = State(now: int, row: Row, sessions: seq<Editor>)

  datatype Step =
    | Acquire(p: nat, dbOk: bool)
    | Release(p: nat, dbOk: bool)
    | Refresh(p: nat)              // the holder saves the row: modified=now()
    | Touch(request: bool)         // any session stamps modified or last_request with now()
    | Pass(seconds: nat)

  function Stamped(row: Row, now: int, request: bool): Row {
    if row.NoRow? then row else if request then row.(lastRequest := At(now)) else row.(modified := At(now))
  }

  predicate Enabled(s: State, step: Step) {
    match step
    case Acquire(p, _) => p < |s.sessions|
    case Release(p, _) => p < |s.sessions|
    case Refresh(p) => p < |s.sessions| && s.sessions[p].Holds()
    case Touch(_) => true
    case Pass(_) => true
  }

  function Next(s: State, step: Step): State
    requires Enabled(s, step)
  {
    match step
    case Acquire(p, dbOk) =>
      var (row, code) := Locked(s.row, s.now, dbOk);
      s.(row := row, sessions := s.sessions[p := AfterLock(s.sessions[p], code, s.now)])
    case Release(p, dbOk) =>
      s.(row := if s.sessions[p].Holds() && dbOk then Freed(s.row) else s.row,
         sessions := s.sessions[p := AfterLiberate(s.sessions[p], dbOk)])
    case Refresh(p) =>
      s.(row := Stamped(s.row, s.now, false), sessions := s.sessions[p := s.sessions[p].(last := s.now)])
    case Touch(request) => s.(row := Stamped(s.row, s.now, request))
    case Pass(seconds) => s.(now := s.now + seconds)
  }

  ghost predicate Holding(s: State, p: int) {
    0 <= p < |s.sessions| && s.sessions[p].Holds()
  }

  ghost predicate OneHolder(s: State) {
    forall p, q :: Holding(s, p) && Holding(s, q) ==> p == q
  }

  /** Every holder took or refreshed its lease at most 30 seconds ago. */
  ghost predicate Timely(s: State) {
    forall p :: Holding(s, p) ==> s.now - s.sessions[p].last <= LEASE_SECONDS
  }

  /** No stamp lies in the future. */
  ghost predicate Past(row: Row, now: int) {
    row.Row? ==>
      && (row.modified.At? ==> row.modified.seconds <= now)
      && (row.lastRequest.At? ==> row.lastRequest.seconds <= now)
  }

  /** A holder's row is in use and was modified no earlier than the holder's last refresh. */
  ghost predicate Marked(s: State) {
    && Past(s.row, s.now)
    && forall p :: Holding(s, p) ==>
                     && s.row.Row? && s.row.fileUsed
                     && s.row.modified.At? && s.sessions[p].last <= s.row.modified.seconds
  }

  /** The lease has run out: the latest stamp of the row is older than the lease. */
  predicate Stale(s: State) {
    && s.row.Row?
    && var greatest := Greatest(s.row.modified, s.row.lastRequest);
       greatest.At? && s.now - greatest.seconds > LEASE_SECONDS
  }

  /** The step takes a file that another session still holds. */
  ghost predicate Steals(s: State, step: Step) {
    && step.Acquire? && step.dbOk && Stale(s)
    && exists p :: p != step.p && Holding(s, p)
  }

  /** Every release follows an acquire of the same session, one for one. */
  ghost predicate Paired(s: State) {
    forall p :: 0 <= p < |s.sessions| ==>
                  s.sessions[p].released + (if Holding(s, p) then 1 else 0) <= s.sessions[p].acquired
  }

  ghost predicate Initial(s: State) {
    && Past(s.row, s.now)
    && forall p :: 0 <= p < |s.sessions| ==> s.sessions[p] == Editor(true, false, 0, 0, 0)
  }

  /** States from `s` on, one per step. */
  ghost predicate Run(s: State, steps: seq<Step>)
    decreases |steps|
  {
    steps != [] ==> Enabled(s, steps[0]) && Run(Next(s, steps[0]), steps[1..])
  }

  ghost function Final(s: State, steps: seq<Step>): State
    requires Run(s, steps)
    decreases |steps|
  {
    if steps == [] then s else Final(Next(s, steps[0]), steps[1..])
  }

  /** Holders stay timely in every state the run goes through. */
  ghost predicate TimelyRun(s: State, steps: seq<Step>)
    requires Run(s, steps)
    decreases |steps|
  {
    Timely(s) && (steps != [] ==> TimelyRun(Next(s, steps[0]), steps[1..]))
  }

  /** At most one session holds the file in every state of the run. */
  ghost predicate AlwaysExclusive(s: State, steps: seq<Step>)
    requires Run(s, steps)
    decreases |steps|
  {
    OneHolder(s) && (steps != [] ==> AlwaysExclusive(Next(s, steps[0]), steps[1..]))
  }

  /** No step of the run takes a file that another session still holds. */
  ghost predicate NeverStolen(s: State, steps: seq<Step>)
    requires Run(s, steps)
    decreases |steps|
  {
    steps != [] ==> !Steals(s, steps[0]) && NeverStolen(Next(s, steps[0]), steps[1..])
  }

  lemma PairedStep(s: State, step: Step)
    requires Enabled(s, step) && Paired(s)
    ensures Paired(Next(s, step))
  {
  }

  lemma {:induction false} EveryReleaseHasItsAcquire(s: State, steps: seq<Step>)
    requires Paired(s) && Run(s, steps)
    ensures Paired(Final(s, steps))
    decreases |steps|
  {
    if steps != [] {
      PairedStep(s, steps[0]);
      EveryReleaseHasItsAcquire(Next(s, steps[0]), steps[1..]);
    }
  }

  /** One step ends exclusion if and only if it steals the file. */
  lemma StepExclusion(s: State, step: Step)
    requires Enabled(s, step) && OneHolder(s) && Marked(s)
    ensures OneHolder(Next(s, step)) <==> !Steals(s, step)
    ensures !Steals(s, step) ==> Marked(Next(s, step))
  {
    var t := Next(s, step);
    forall p | Holding(t, p) && !(step.Acquire? && p == step.p) ensures Holding(s, p) {}
    if Steals(s, step) {
      var p :| p != step.p && Holding(s, p);
      assert Holding(t, p) && Holding(t, step.p);
    }
  }

  /** Over a whole run: at most one session holds the file in every state if and only if no
      step takes it after the lease of another holder has run out. */
  lemma {:induction false} ExclusiveIffNeverStolen(s: State, steps: seq<Step>)
    requires Run(s, steps) && OneHolder(s) && Marked(s)
    ensures AlwaysExclusive(s, steps) <==> NeverStolen(s, steps)
    decreases |steps|
  {
    if steps != [] {
      StepExclusion(s, steps[0]);
      if !Steals(s, steps[0]) {
        ExclusiveIffNeverStolen(Next(s, steps[0]), steps[1..]);
      }
    }
  }

  /** Holders that refresh in time are never stolen from. */
  lemma {:induction false} TimelyIsNeverStolen(s: State, steps: seq<Step>)
    requires Run(s, steps) && TimelyRun(s, steps) && OneHolder(s) && Marked(s)
    ensures NeverStolen(s, steps)
    decreases |steps|
  {
    if steps != [] {
      StepExclusion(s, steps[0]);
      TimelyIsNeverStolen(Next(s, steps[0]), steps[1..]);
    }
  }

  lemma {:induction false} ExclusiveToTheEnd(s: State, steps: seq<Step>)
    requires Run(s, steps) && AlwaysExclusive(s, steps)
    ensures OneHolder(Final(s, steps))
    decreases |steps|
  {
    if steps != [] {
      ExclusiveToTheEnd(Next(s, steps[0]), steps[1..]);
    }
  }

  /** In every run whose holders refresh within 30 seconds until they release, at most one
      session holds the file at any time. */
  lemma MutualExclusion(s: State, steps: seq<Step>)
    requires Initial(s) && Run(s, steps) && TimelyRun(s, steps)
    ensures AlwaysExclusive(s, steps)
    ensures OneHolder(Final(s, steps)) && Paired(Final(s, steps))
  {
    assert forall p :: !Holding(s, p);
    TimelyIsNeverStolen(s, steps);
    ExclusiveIffNeverStolen(s, steps);
    ExclusiveToTheEnd(s, steps);
    EveryReleaseHasItsAcquire(s, steps);
  }

  /** While `p` holds the file, another session's lock succeeds if and only if the lease has
      run out: then both hold it. */
  lemma TakenIffStale(s: State, p: nat, q: nat)
    requires Holding(s, p) && Marked(s) && q < |s.sessions| && p != q && !Holding(s, q)
    ensures Holding(Next(s, Acquire(q, true)), q) <==> Stale(s)
    ensures Holding(Next(s, Acquire(q, true)), p)
  {
  }

  /** Releasing carries no owner: when two hold the file, the first to release lets a third
      in beside the other, however fresh the other's lease is. */
  lemma ReleaseFreesForAll(s: State, p: nat, q: nat, r: nat)
    requires Holding(s, p) && Holding(s, q) && p != q && r < |s.sessions| && r != q && s.row.Row?
    ensures var t := Next(Next(s, Release(p, true)), Acquire(r, true));
            Holding(t, q) && Holding(t, r)
  {
  }

  /** The hypothesis is needed: a holder silent for 31 seconds, three sessions, two holders
      in the end although the second took its lease this very second. */
  lemma SilentHolderExample()
    ensures var s := State(0, NoRow, [Editor(true, false, 0, 0, 0), Editor(true, false, 0, 0, 0), Editor(true, false, 0, 0, 0)]);
            var steps := [Acquire(0, true), Pass(31), Acquire(1, true), Release(0, true), Acquire(2, true)];
            Initial(s) && Run(s, steps) && Holding(Final(s, steps), 1) && Holding(Final(s, steps), 2)
  {
    var s := State(0, NoRow, [Editor(true, false, 0, 0, 0), Editor(true, false, 0, 0, 0), Editor(true, false, 0, 0, 0)]);
    var steps := [Acquire(0, true), Pass(31), Acquire(1, true), Release(0, true), Acquire(2, true)];
    assert steps[1..] == [Pass(31), Acquire(1, true), Release(0, true), Acquire(2, true)];
    assert steps[1..][1..] == [Acquire(1, true), Release(0, true), Acquire(2, true)];
    assert steps[1..][1..][1..] == [Release(0, true), Acquire(2, true)];
    assert steps[1..][1..][1..][1..] == [Acquire(2, true)];
    assert steps[1..][1..][1..][1..][1..] == [];
  }

  /** A session that refreshes its lease only by checkpoints leaves it untouched for at
      least 32 seconds at a time (Session.Tick). Whatever the state it refreshed in, a
      session that asks 31 seconds later gets the file too, if and only if both stamps of
      the row are set. */
  lemma CheckpointsAreTooRare(s: State, p: nat, q: nat)
    requires Marked(s) && Holding(s, p) && s.sessions[p].last == s.now
    requires q < |s.sessions| && q != p && !Holding(s, q)
    ensures var t := Next(Next(s, Pass(31)), Acquire(q, true));
            Holding(t, p) && (Holding(t, q) <==> s.row.lastRequest.At?)
  {
  }
}
