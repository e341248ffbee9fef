/** The users column of a row: who downloaded how much of the file. */
module Ledger {
  import opened Text

  /** LIMIT_USER_CACHE_DB */
  const LIMIT_USERS: nat := 10

  datatype UserCache = UserCache(ip: string, downloaded: int, modified: int, acumulate: int, requested: int)

  function Updated(u: UserCache, date: int, bytes: int, hit: bool): UserCache {
    if hit then u.(modified := date, requested := u.requested + bytes)
    else u.(modified := date, acumulate := u.acumulate + bytes)
  }

  /** Index of the first entry of `ip`, |luc| for none. */
  function IndexOf(luc: seq<UserCache>, ip: string): (i: nat)
    ensures i <= |luc|
    ensures i < |luc| ==> luc[i].ip == ip
    ensures forall j :: 0 <= j < i ==> luc[j].ip != ip
  {
    if luc == [] || luc[0].ip == ip then 0 else 1 + IndexOf(luc[1..], ip)
  }

  lemma IndexUnique(luc: seq<UserCache>, ip: string, i: nat)
    requires i <= |luc| && (i < |luc| ==> luc[i].ip == ip)
    requires forall j :: 0 <= j < i ==> luc[j].ip != ip
    ensures i == IndexOf(luc, ip)
  {
  }

  /** Credits are booked on a stand-in when the caller's address or clock is unusable. */
  function Account(ip: string, date: int): (string, int) {
    if ip == "" || date <= 0 then ("0.0.0.0", 1) else (ip, date)
  }

  function Credited(luc: seq<UserCache>, ip: string, date: int, bytes: int, hit: bool): seq<UserCache> {
    var (who, when) := Account(ip, date);
    var i := IndexOf(luc, who);
    if i < |luc| then luc[i := Updated(luc[i], when, bytes, hit)]
    else luc + [Updated(UserCache(who, when, when, 0, 0), when, bytes, hit)]
  }

  method AddUserCache(luc: seq<UserCache>, ip: string, date: int, bytes: int, hit: bool)
    returns (re: bool, r: seq<UserCache>)
    ensures r == Credited(luc, ip, date, bytes, hit)
    ensures re <==> ip != "" && date > 0
    ensures !re ==> r == Credited(luc, "0.0.0.0", 1, bytes, hit)
  {
    var who, when := ip, date;
    re := true;
    if ip == "" || date <= 0 {
      who, when, re := "0.0.0.0", 1, false;
    }
    var i := 0;
    while i < |luc|
      invariant 0 <= i <= |luc|
      invariant forall j :: 0 <= j < i ==> luc[j].ip != who
    {
      if luc[i].ip == who {
        IndexUnique(luc, who, i);
        return re, luc[i := Updated(luc[i], when, bytes, hit)];
      }
      i := i + 1;
    }
    IndexUnique(luc, who, i);
    var uc := UserCache(who, when, when, 0, 0);
    if hit {
      uc := uc.(requested := bytes);
    } else {
      uc := uc.(acumulate := bytes);
    }
    r := luc + [uc];
  }

  /** Bytes booked on `ip` as downloaded from the origin. */
  function Booked(luc: seq<UserCache>, ip: string): int {
    var i := IndexOf(luc, ip);
    if i < |luc| then luc[i].acumulate else 0
  }

  /** Bytes booked on `ip` as served from the cache. */
  function Requested(luc: seq<UserCache>, ip: string): int {
    var i := IndexOf(luc, ip);
    if i < |luc| then luc[i].requested else 0
  }

  /** When the account of `ip` was opened; 0 for none. */
  function Since(luc: seq<UserCache>, ip: string): int {
    var i := IndexOf(luc, ip);
    if i < |luc| then luc[i].downloaded else 0
  }

  /** A credit adds to its own account, in one of its two columns, and to no other. */
  lemma CreditBooks(luc: seq<UserCache>, ip: string, date: int, bytes: int, hit: bool, other: string)
    ensures Booked(Credited(luc, ip, date, bytes, hit), other) ==
            Booked(luc, other) + if other == Account(ip, date).0 && !hit then bytes else 0
    ensures Requested(Credited(luc, ip, date, bytes, hit), other) ==
            Requested(luc, other) + if other == Account(ip, date).0 && hit then bytes else 0
  {
    var r := Credited(luc, ip, date, bytes, hit);
    var i := IndexOf(luc, other);
    if i < |luc| || other != Account(ip, date).0 {
      IndexUnique(r, other, if i < |luc| then i else |r|);
    } else {
      IndexUnique(r, other, |luc|);
    }
  }

  /** The credited account is dated, keeps the date it was opened at or is opened, and no other
      account changes in any way. */
  lemma CreditDates(luc: seq<UserCache>, ip: string, date: int, bytes: int, hit: bool)
    requires ip != "" && date > 0
    ensures var r, i := Credited(luc, ip, date, bytes, hit), IndexOf(luc, ip);
            && |r| == (if i < |luc| then |luc| else |luc| + 1)
            && r[i].ip == ip && r[i].modified == date && r[i].downloaded == (if i < |luc| then luc[i].downloaded else date)
            && forall j :: 0 <= j < |luc| && j != i ==> r[j] == luc[j]
  {
  }

  // ----- the text of the column

  function InsertUser(u: UserCache, s: seq<UserCache>): seq<UserCache> {
    if s == [] || s[0].modified <= u.modified then [u] + s else [s[0]] + InsertUser(u, s[1..])
  }

  /** The list as `list::sort` with compareUserCache leaves it: latest first. */
  function SortUsers(luc: seq<UserCache>): seq<UserCache> {
    if luc == [] then [] else InsertUser(luc[0], SortUsers(luc[1..]))
  }

  function OfDate(luc: seq<UserCache>, date: int): seq<UserCache> {
    if luc == [] then [] else (if luc[0].modified == date then [luc[0]] else []) + OfDate(luc[1..], date)
  }

  ghost predicate LatestFirst(s: seq<UserCache>) {
    forall i, j :: 0 <= i < j < |s| ==> s[i].modified >= s[j].modified
  }

  lemma {:induction false} InsertUserKeeps(u: UserCache, s: seq<UserCache>)
    ensures multiset(InsertUser(u, s)) == multiset{u} + multiset(s)
    decreases |s|
  {
    if !(s == [] || s[0].modified <= u.modified) {
      InsertUserKeeps(u, s[1..]);
      assert s == [s[0]] + s[1..];
    }
  }

  lemma LatestCons(u: UserCache, s: seq<UserCache>)
    ensures LatestFirst([u] + s) <==> LatestFirst(s) && (s != [] ==> u.modified >= s[0].modified)
  {
    var r := [u] + s;
    if LatestFirst(r) {
      forall i, j | 0 <= i < j < |s| ensures s[i].modified >= s[j].modified {
        assert r[i + 1].modified >= r[j + 1].modified;
      }
      assert s != [] ==> r[0].modified >= r[1].modified;
    }
  }

  lemma {:induction false} InsertUserSorts(u: UserCache, s: seq<UserCache>)
    requires LatestFirst(s)
    ensures LatestFirst(InsertUser(u, s))
    decreases |s|
  {
    hide LatestFirst;
    if s == [] || s[0].modified <= u.modified {
      LatestCons(u, s);
    } else {
      var rest := s[1..];
      assert s == [s[0]] + rest;
      LatestCons(s[0], rest);
      InsertUserSorts(u, rest);
      LatestCons(s[0], InsertUser(u, rest));
    }
  }

  lemma {:induction false} InsertUserStable(u: UserCache, s: seq<UserCache>, d: int)
    ensures OfDate(InsertUser(u, s), d) == (if u.modified == d then [u] else []) + OfDate(s, d)
    decreases |s|
  {
    hide OfDate;
    if s == [] || s[0].modified <= u.modified {
      OfDateFirst(u, s, d);
    } else {
      InsertUserStable(u, s[1..], d);
      OfDateFirst(s[0], InsertUser(u, s[1..]), d);
      OfDateFirst(s[0], s[1..], d);
      assert s == [s[0]] + s[1..];
    }
  }

  lemma OfDateFirst(u: UserCache, s: seq<UserCache>, d: int)
    ensures OfDate([u] + s, d) == (if u.modified == d then [u] else []) + OfDate(s, d)
  {
    assert ([u] + s)[1..] == s;
  }

  lemma NoUsersSorted()
    ensures LatestFirst([])
  {
  }

  /** The sort is a stable sort by date of last change, latest first. */
  lemma {:induction false} SortUsersMeaning(luc: seq<UserCache>)
    ensures LatestFirst(SortUsers(luc))
    ensures multiset(SortUsers(luc)) == multiset(luc)
    ensures forall d :: OfDate(SortUsers(luc), d) == OfDate(luc, d)
    decreases |luc|
  {
    hide InsertUser, LatestFirst;
    if luc == [] {
      NoUsersSorted();
    } else {
      SortUsersMeaning(luc[1..]);
      InsertUserSorts(luc[0], SortUsers(luc[1..]));
      InsertUserKeeps(luc[0], SortUsers(luc[1..]));
      forall d { InsertUserStable(luc[0], SortUsers(luc[1..]), d); }
      assert luc == [luc[0]] + luc[1..];
    }
  }

  function UserFields(u: UserCache): seq<string> {
    [u.ip, Show(u.downloaded), Show(u.modified), Show(u.acumulate), Show(u.requested)]
  }

  /** `%s,%li,%li,%lli,%lli` */
  function UserText(u: UserCache): string { Join(UserFields(u), ',') }

  /** One account in the column. */
  lemma UserTextIs(u: UserCache)
    ensures UserText(u) ==
            u.ip + "," + Show(u.downloaded) + "," + Show(u.modified) + "," + Show(u.acumulate) + "," + Show(u.requested)
  {
    var f := UserFields(u);
    assert f[1..][1..] == f[2..] && f[2..][1..] == f[3..] && f[3..][1..] == f[4..];
    assert Join(f[3..], ',') == Show(u.acumulate) + [','] + Show(u.requested);
    assert Join(f[2..], ',') == Show(u.modified) + [','] + Join(f[3..], ',');
    assert Join(f[1..], ',') == Show(u.downloaded) + [','] + Join(f[2..], ',');
  }

  function UserTexts(luc: seq<UserCache>): (r: seq<string>)
    ensures |r| == |luc|
  {
    seq(|luc|, i requires 0 <= i < |luc| => UserText(luc[i]))
  }

  function Kept(luc: seq<UserCache>): seq<UserCache> {
    var s := SortUsers(luc);
    if |s| > LIMIT_USERS then s[..LIMIT_USERS] else s
  }

  /** The `users` column. */
  function LedgerText(luc: seq<UserCache>): string { Join(UserTexts(Kept(luc)), ';') }

  method LuserCache2Str(luc: seq<UserCache>) returns (re: string)
    ensures re == LedgerText(luc)
  {
    var s := SortUsers(luc);
    var lsize := |s|;
    if lsize > LIMIT_USERS {
      lsize := LIMIT_USERS;
    }
    re := "";
    var i := 0;
    while i < |s|
      invariant 0 <= i <= lsize <= |s| && (i == lsize ==> i == |s|)
      invariant re == Join(UserTexts(s[..i]), ';')
      decreases |s| - i
    {
      var user := UserText(s[i]);
      UsersOneMore(s, i);
      if i != 0 {
        re := re + (";" + user);
      } else {
        re := user;
      }
      i := i + 1;
      if i >= lsize {
        break;
      }
    }
    assert s[..i] == Kept(luc);
  }

  lemma TextsOneMore(s: seq<UserCache>, i: nat)
    requires i < |s|
    ensures UserTexts(s[..i + 1]) == UserTexts(s[..i]) + [UserText(s[i])]
    ensures UserTexts(s[..i]) == [] <==> i == 0
    ensures i == 0 ==> Join(UserTexts(s[..i]) + [UserText(s[i])], ';') == UserText(s[i])
  {
    hide UserText;
  }

  lemma UsersOneMore(s: seq<UserCache>, i: nat)
    requires i < |s|
    ensures Join(UserTexts(s[..i + 1]), ';') ==
            if i == 0 then UserText(s[i]) else Join(UserTexts(s[..i]), ';') + (";" + UserText(s[i]))
  {
    hide UserTexts, UserText, Join;
    TextsOneMore(s, i);
    JoinSnoc(UserTexts(s[..i]), UserText(s[i]), ';');
    if i != 0 {
      assert Join(UserTexts(s[..i]), ';') + [';'] + UserText(s[i])
          == Join(UserTexts(s[..i]), ';') + (";" + UserText(s[i]));
    }
  }

  /** sscanf of a number: the variable keeps its value when there is none. */
  function Scan(s: string, before: int): int {
    if s == [] then before
    else if IsSpace(s[0]) then Scan(s[1..], before)
    else
      var t := if s[0] == '-' || s[0] == '+' then s[1..] else s;
      if t == [] || !IsDigit(t[0]) then before else Atoll(s)
  }

  lemma ScanOfShow(n: int, before: int)
    ensures Scan(Show(n), before) == n
  {
    AtollOfShow(n);
    DigitsParse(if n < 0 then -n else n);
    if n < 0 { assert Show(n)[1..] == Digits(-n); }
  }

  function ReadUser(f: seq<string>, n: UserCache): UserCache
    requires |f| == 5
  {
    UserCache(f[0], Scan(f[1], n.downloaded), Scan(f[2], n.modified), Scan(f[3], n.acumulate), Scan(f[4], n.requested))
  }

  datatype Ledger = Ledger(ok: bool, users: seq<UserCache>)

  /** `n` is the record reused for every user. */
  function ReadUsers(lusers: seq<string>, i: nat, n: UserCache, acc: seq<UserCache>): Ledger
    requires i <= |lusers|
    decreases |lusers| - i
  {
    if i == |lusers| then Ledger(true, acc)
    else
      var f := Explode(lusers[i], ",");
      if |f| != 5 then Ledger(false, acc)
      else ReadUsers(lusers, i + 1, ReadUser(f, n), acc + [ReadUser(f, n)])
  }

  /** `n` stands for the record's indeterminate initial contents. */
  function LoadLedger(str: string, initial: UserCache): Ledger { ReadUsers(Explode(str, ";"), 0, initial, []) }

  method Str2LuserCache(str: string, initial: UserCache) returns (ok: bool, lre: seq<UserCache>)
    ensures Ledger(ok, lre) == LoadLedger(str, initial)
  {
    lre := [];
    var n := initial;
    var lusers := StringExplode(str, ";", []);
    assert lusers == Explode(str, ";");
    var i := 0;
    while i < |lusers|
      invariant 0 <= i <= |lusers|
      invariant ReadUsers(lusers, i, n, lre) == ReadUsers(lusers, 0, initial, [])
    {
      var lparams := StringExplode(lusers[i], ",", []);
      assert lparams == Explode(lusers[i], ",");
      if |lparams| != 5 {
        return false, lre;
      }
      n := ReadUser(lparams, n);
      lre := lre + [n];
      i := i + 1;
    }
    ok := true;
  }

  /** Reading fails at the first record without five fields; the accounts before it are those
      of the records, in order. */
  lemma {:induction false} ReadUsersMeaning(lusers: seq<string>, i: nat, n: UserCache, acc: seq<UserCache>)
    requires |acc| == i <= |lusers|
    ensures var r := ReadUsers(lusers, i, n, acc);
            && acc <= r.users && |r.users| <= |lusers| && (r.ok <==> |r.users| == |lusers|)
            && (forall j :: i <= j < |r.users| ==> ReadFrom(r.users[j], Explode(lusers[j], ",")))
            && (!r.ok ==> |Explode(lusers[|r.users|], ",")| != 5)
    decreases |lusers| - i
  {
    hide Explode, Scan;
    if i < |lusers| {
      var f := Explode(lusers[i], ",");
      if |f| == 5 {
        ReadUsersMeaning(lusers, i + 1, ReadUser(f, n), acc + [ReadUser(f, n)]);
        ReadUserReads(f, n);
        assert ReadUsers(lusers, i, n, acc).users[i] == (acc + [ReadUser(f, n)])[i];
      }
    }
  }

  /** The account of a record: its address, and its numbers, as far as they can be read. */
  ghost predicate ReadFrom(u: UserCache, f: seq<string>) {
    && |f| == 5 && u.ip == f[0]
    && u.downloaded == Scan(f[1], u.downloaded) && u.modified == Scan(f[2], u.modified)
    && u.acumulate == Scan(f[3], u.acumulate) && u.requested == Scan(f[4], u.requested)
  }

  lemma ReadUserReads(f: seq<string>, n: UserCache)
    requires |f| == 5
    ensures ReadFrom(ReadUser(f, n), f)
  {
    hide Scan;
    ScanTwice(f[1], n.downloaded);
    ScanTwice(f[2], n.modified);
    ScanTwice(f[3], n.acumulate);
    ScanTwice(f[4], n.requested);
  }

  lemma {:induction false} ScanTwice(s: string, before: int)
    ensures Scan(s, Scan(s, before)) == Scan(s, before)
    decreases |s|
  {
    if s != [] && IsSpace(s[0]) {
      ScanTwice(s[1..], before);
    }
  }

  /** An address the column can hold. */
  predicate CleanIp(ip: string) { ip != [] && ',' !in ip && ';' !in ip }

  lemma ShownIsClean(n: int)
    ensures Show(n) != [] && ',' !in Show(n) && ';' !in Show(n)
  {
    AtollOfShow(n);
    if n < 0 { DigitsParse(-n); }
  }

  lemma {:induction false} JoinAvoids(fields: seq<string>, sep: char, c: char)
    requires c != sep && forall i :: 0 <= i < |fields| ==> c !in fields[i]
    ensures c !in Join(fields, sep)
    decreases |fields|
  {
    if |fields| > 1 {
      JoinAvoids(fields[1..], sep, c);
    }
  }

  lemma UserFieldsClean(u: UserCache)
    requires CleanIp(u.ip)
    ensures forall i :: 0 <= i < 5 ==> UserFields(u)[i] != [] && ',' !in UserFields(u)[i] && ';' !in UserFields(u)[i]
  {
    ShownIsClean(u.downloaded);
    ShownIsClean(u.modified);
    ShownIsClean(u.acumulate);
    ShownIsClean(u.requested);
  }

  lemma UserFieldsRead(u: UserCache, n: UserCache)
    ensures ReadUser(UserFields(u), n) == u
  {
    ScanOfShow(u.downloaded, n.downloaded);
    ScanOfShow(u.modified, n.modified);
    ScanOfShow(u.acumulate, n.acumulate);
    ScanOfShow(u.requested, n.requested);
  }

  lemma UserReads(u: UserCache)
    requires CleanIp(u.ip)
    ensures Explode(UserText(u), ",") == UserFields(u)
    ensures UserText(u) != [] && ';' !in UserText(u)
  {
    UserFieldsClean(u);
    ExplodeOfJoin(UserFields(u), ',');
    JoinAvoids(UserFields(u), ',', ';');
  }

  lemma {:induction false} UsersRead(luc: seq<UserCache>, i: nat, n: UserCache)
    requires i <= |luc| && forall u :: u in luc ==> CleanIp(u.ip)
    ensures ReadUsers(UserTexts(luc), i, n, luc[..i]) == Ledger(true, luc)
    decreases |luc| - i
  {
    hide Explode, Scan, UserText, ReadUser, CleanIp;
    if i == |luc| {
      assert luc[..i] == luc;
    } else {
      assert luc[i] in luc;
      UserReads(luc[i]);
      UserFieldsRead(luc[i], n);
      assert luc[..i] + [luc[i]] == luc[..i + 1];
      UsersRead(luc, i + 1, luc[i]);
    }
  }

  /** Reading the column back gives the ten accounts changed last, latest first. */
  lemma LedgerRoundTrip(luc: seq<UserCache>, initial: UserCache)
    requires forall u :: u in luc ==> CleanIp(u.ip)
    ensures LoadLedger(LedgerText(luc), initial) == Ledger(true, Kept(luc))
  {
    SortUsersMeaning(luc);
    var kept := Kept(luc);
    forall u | u in kept ensures CleanIp(u.ip) {
      assert u in SortUsers(luc);
      assert u in multiset(luc);
    }
    forall i | 0 <= i < |kept| ensures UserTexts(kept)[i] != [] && ';' !in UserTexts(kept)[i] {
      UserReads(kept[i]);
    }
    ExplodeOfJoin(UserTexts(kept), ';');
    UsersRead(kept, 0, initial);
    assert kept[..0] == [];
  }

  // ----- what a column tells the next request

  /** One account an address. */
  ghost predicate Distinct(luc: seq<UserCache>) {
    forall i, j :: 0 <= i < j < |luc| ==> luc[i].ip != luc[j].ip
  }

  /** Accounts with addresses the column can hold, one an address. */
  ghost predicate Clean(luc: seq<UserCache>) {
    Distinct(luc) && forall u :: u in luc ==> CleanIp(u.ip)
  }

  /** `users` are the accounts `was` after `ip` was booked `downloaded` and `requested` bytes,
      last at `at`; a new account stands at the end. */
  ghost predicate Billed(was: seq<UserCache>, users: seq<UserCache>, ip: string, at: int, downloaded: int, requested: int) {
    var i := IndexOf(was, ip);
    && |users| == (if i < |was| then |was| else |was| + 1)
    && (forall j :: 0 <= j < |users| && j != i ==> users[j] == was[j])
    && users[i].ip == ip && users[i].modified == at
    && (i < |was| ==> users[i].downloaded == was[i].downloaded)
    && users[i].acumulate == Booked(was, ip) + downloaded && users[i].requested == Requested(was, ip) + requested
  }

  /** A credit continues the bill. */
  lemma CreditBills(was: seq<UserCache>, users: seq<UserCache>, ip: string, before: int, downloaded: int, requested: int,
                    date: int, bytes: int, hit: bool)
    requires ip != "" && date > 0
    requires (users == was && downloaded == 0 && requested == 0) || Billed(was, users, ip, before, downloaded, requested)
    ensures Billed(was, Credited(users, ip, date, bytes, hit), ip, date,
                   downloaded + (if hit then 0 else bytes), requested + (if hit then bytes else 0))
  {
    var i := IndexOf(was, ip);
    if users != was {
      IndexUnique(users, ip, i);
    }
  }

  /** How many accounts were changed after `date`. */
  function Later(luc: seq<UserCache>, date: int): nat {
    if luc == [] then 0 else (if luc[0].modified > date then 1 else 0) + Later(luc[1..], date)
  }

  /** How many accounts come before account `i`: those changed later, and those in front of it
      changed at the same time. */
  function Rank(luc: seq<UserCache>, i: nat): nat
    requires i < |luc|
  {
    if i == 0 then Later(luc[1..], luc[0].modified)
    else Rank(luc[1..], i - 1) + if luc[0].modified >= luc[i].modified then 1 else 0
  }

  predicate Has(luc: seq<UserCache>, who: string) { IndexOf(luc, who) < |luc| }

  /** The account of `who` is among the ten that are kept. */
  ghost predicate KeptIn(luc: seq<UserCache>, who: string) {
    var i := IndexOf(luc, who);
    i < |luc| && Rank(luc, i) < LIMIT_USERS
  }

  lemma {:induction false} InsertPosition(u: UserCache, s: seq<UserCache>)
    requires LatestFirst(s)
    ensures var p := Later(s, u.modified);
            && p <= |s| && InsertUser(u, s) == s[..p] + [u] + s[p..]
            && (forall j :: 0 <= j < |s| ==> (s[j].modified > u.modified <==> j < p))
    decreases |s|
  {
    if s != [] {
      InsertPosition(u, s[1..]);
      var p := Later(s[1..], u.modified);
      var t := s[1..];
      assert forall j :: 0 <= j < |t| ==> t[j] == s[j + 1];
      if s[0].modified > u.modified {
        assert s[..p + 1] == [s[0]] + s[1..][..p] && s[p + 1..] == s[1..][p..];
      }
    }
  }

  lemma {:induction false} LaterOfSort(luc: seq<UserCache>, date: int)
    ensures Later(SortUsers(luc), date) == Later(luc, date)
    decreases |luc|
  {
    if luc != [] {
      LaterOfSort(luc[1..], date);
      LaterOfInsert(luc[0], SortUsers(luc[1..]), date);
    }
  }

  lemma {:induction false} LaterOfInsert(u: UserCache, s: seq<UserCache>, date: int)
    ensures Later(InsertUser(u, s), date) == Later(s, date) + if u.modified > date then 1 else 0
    decreases |s|
  {
    if s == [] || s[0].modified <= u.modified {
      assert ([u] + s)[1..] == s;
    } else {
      LaterOfInsert(u, s[1..], date);
      assert ([s[0]] + InsertUser(u, s[1..]))[1..] == InsertUser(u, s[1..]);
    }
  }

  /** An account's rank is its place in the sorted list. */
  lemma {:induction false} RankIsPosition(luc: seq<UserCache>, i: nat)
    requires i < |luc|
    ensures Rank(luc, i) < |SortUsers(luc)| == |luc| && SortUsers(luc)[Rank(luc, i)] == luc[i]
    decreases |luc|
  {
    var u, s := luc[0], SortUsers(luc[1..]);
    SortUsersMeaning(luc[1..]);
    SortLength(luc[1..]);
    SortLength(luc);
    InsertPosition(u, s);
    LaterOfSort(luc[1..], u.modified);
    if i > 0 {
      RankIsPosition(luc[1..], i - 1);
    }
  }

  lemma {:induction false} SortLength(luc: seq<UserCache>)
    ensures |SortUsers(luc)| == |luc|
    decreases |luc|
  {
    if luc != [] {
      SortLength(luc[1..]);
      SortUsersMeaning(luc[1..]);
      InsertPosition(luc[0], SortUsers(luc[1..]));
    }
  }

  lemma DistinctCons(u: UserCache, s: seq<UserCache>)
    ensures Distinct([u] + s) <==> Distinct(s) && forall v :: v in s ==> v.ip != u.ip
  {
    var r := [u] + s;
    if Distinct(r) {
      forall i, j | 0 <= i < j < |s| ensures s[i].ip != s[j].ip {
        assert r[i + 1].ip != r[j + 1].ip;
      }
      forall v | v in s ensures v.ip != u.ip {
        var j :| 0 <= j < |s| && s[j] == v;
        assert r[0].ip != r[j + 1].ip;
      }
    }
  }

  lemma {:induction false} InsertDistinct(u: UserCache, s: seq<UserCache>)
    ensures Distinct(InsertUser(u, s)) <==> Distinct([u] + s)
    ensures forall v :: v in InsertUser(u, s) <==> v in s || v == u
    decreases |s|
  {
    hide Distinct;
    if s != [] && s[0].modified > u.modified {
      var rest := s[1..];
      assert s == [s[0]] + rest;
      InsertDistinct(u, rest);
      DistinctCons(u, rest);
      DistinctCons(u, s);
      DistinctCons(s[0], rest);
      DistinctCons(s[0], InsertUser(u, rest));
    }
  }

  lemma {:induction false} SortDistinct(luc: seq<UserCache>)
    ensures Distinct(SortUsers(luc)) <==> Distinct(luc)
    ensures forall v :: v in SortUsers(luc) <==> v in luc
    decreases |luc|
  {
    hide Distinct, InsertUser;
    if luc != [] {
      var rest := luc[1..];
      assert luc == [luc[0]] + rest;
      SortDistinct(rest);
      InsertDistinct(luc[0], SortUsers(rest));
      DistinctCons(luc[0], rest);
      DistinctCons(luc[0], SortUsers(rest));
    }
  }

  /** What is booked in the kept accounts: all of it for those that rank among the ten, and
      nothing for the others. */
  lemma KeptBooks(luc: seq<UserCache>, who: string)
    requires Distinct(luc)
    ensures Has(Kept(luc), who) <==> KeptIn(luc, who)
    ensures KeptIn(luc, who) ==> Since(Kept(luc), who) == Since(luc, who)
    ensures Booked(Kept(luc), who) == if KeptIn(luc, who) then Booked(luc, who) else 0
    ensures Requested(Kept(luc), who) == if KeptIn(luc, who) then Requested(luc, who) else 0
  {
    var s, i := SortUsers(luc), IndexOf(luc, who);
    SortDistinct(luc);
    SortLength(luc);
    if i < |luc| {
      RankIsPosition(luc, i);
    }
    hide SortUsers, Rank;
    if KeptIn(luc, who) {
      IndexUnique(Kept(luc), who, Rank(luc, i));
    } else {
      forall p | 0 <= p < |Kept(luc)| ensures Kept(luc)[p].ip != who {
        assert s[p] in luc;
        SameOwner(luc, s[p]);
      }
      IndexUnique(Kept(luc), who, |Kept(luc)|);
    }
  }

  lemma SameOwner(luc: seq<UserCache>, u: UserCache)
    requires Distinct(luc) && u in luc
    ensures IndexOf(luc, u.ip) < |luc| && luc[IndexOf(luc, u.ip)] == u
  {
    var j :| 0 <= j < |luc| && luc[j] == u;
    IndexUnique(luc, u.ip, j);
  }

  lemma KeptIsClean(luc: seq<UserCache>)
    requires Clean(luc)
    ensures Clean(Kept(luc)) && |Kept(luc)| == if |luc| <= 10 then |luc| else 10
  {
    SortDistinct(luc);
    SortLength(luc);
    forall u | u in Kept(luc) ensures CleanIp(u.ip) {
      assert u in SortUsers(luc);
    }
  }

  /** The accounts of a request that bills `ip` at `at`, as far as their order goes. */
  function Touched(was: seq<UserCache>, ip: string, at: int): seq<UserCache> {
    var i := IndexOf(was, ip);
    if i < |was| then was[i := was[i].(modified := at)] else was + [UserCache(ip, at, at, 0, 0)]
  }

  /** Accounts with the same addresses and dates rank the same. */
  lemma {:induction false} SameDatesSameRank(l: seq<UserCache>, m: seq<UserCache>, i: nat)
    requires |l| == |m| && i < |l| && forall j :: 0 <= j < |l| ==> l[j].modified == m[j].modified
    ensures Rank(l, i) == Rank(m, i)
    decreases |l|
  {
    if i == 0 {
      SameDatesSameLater(l[1..], m[1..], l[0].modified);
    } else {
      SameDatesSameRank(l[1..], m[1..], i - 1);
    }
  }

  lemma {:induction false} SameDatesSameLater(l: seq<UserCache>, m: seq<UserCache>, date: int)
    requires |l| == |m| && forall j :: 0 <= j < |l| ==> l[j].modified == m[j].modified
    ensures Later(l, date) == Later(m, date)
    decreases |l|
  {
    if l != [] {
      SameDatesSameLater(l[1..], m[1..], date);
    }
  }

  /** With at most ten accounts nobody is dropped. */
  lemma FewAreKept(luc: seq<UserCache>, who: string)
    requires |luc| <= LIMIT_USERS
    ensures KeptIn(luc, who) <==> Has(luc, who)
  {
    if Has(luc, who) {
      RankIsPosition(luc, IndexOf(luc, who));
    }
  }

  /** Every account belongs to one of `browsers`. */
  ghost predicate Among(luc: seq<UserCache>, browsers: set<string>) {
    forall who :: Has(luc, who) ==> who in browsers
  }

  lemma {:induction false} NoMoreThan(luc: seq<UserCache>, browsers: set<string>)
    requires Distinct(luc) && Among(luc, browsers)
    ensures |luc| <= |browsers|
    decreases |luc|
  {
    if luc != [] {
      var u, rest := luc[0], luc[1..];
      assert luc == [u] + rest;
      DistinctCons(u, rest);
      assert Has(luc, u.ip);
      forall who | Has(rest, who) ensures who in browsers - {u.ip} {
        assert rest[IndexOf(rest, who)] in rest;
        assert Has(luc, who);
      }
      NoMoreThan(rest, browsers - {u.ip});
    }
  }

  /** What a bill changes: the account of `ip`, and no other. */
  lemma BillBooks(was: seq<UserCache>, users: seq<UserCache>, ip: string, at: int, downloaded: int, requested: int, who: string)
    requires Billed(was, users, ip, at, downloaded, requested)
    ensures Booked(users, who) == Booked(was, who) + if who == ip then downloaded else 0
    ensures Requested(users, who) == Requested(was, who) + if who == ip then requested else 0
    ensures KeptIn(users, who) <==> KeptIn(Touched(was, ip, at), who)
    ensures Has(was, who) ==> Has(users, who) && Since(users, who) == Since(was, who)
  {
    var t := Touched(was, ip, at);
    var i, w := IndexOf(was, ip), IndexOf(was, who);
    assert forall j :: 0 <= j < |users| ==> users[j].ip == t[j].ip && users[j].modified == t[j].modified;
    var n := if who == ip then i else if w < |was| then w else |users|;
    IndexUnique(users, who, n);
    IndexUnique(t, who, n);
    if n < |users| {
      SameDatesSameRank(users, t, n);
    }
  }

  lemma BillIsClean(was: seq<UserCache>, users: seq<UserCache>, ip: string, at: int, downloaded: int, requested: int)
    requires Clean(was) && CleanIp(ip) && Billed(was, users, ip, at, downloaded, requested)
    ensures Clean(users) && |users| == |Touched(was, ip, at)|
  {
    var i := IndexOf(was, ip);
    forall u | u in users ensures CleanIp(u.ip) {
      var j :| 0 <= j < |users| && users[j] == u;
      if j != i {
        assert was[j] in was;
      }
    }
  }

  /** The accounts the next request reads after `ip` was billed at `at`: the ten that come first
      by date of last change, each with what it had, and the browser's with what it was served. */
  ghost predicate Credits(before: string, after: string, record: UserCache, ip: string, at: int, downloaded: int, requested: int) {
    var was, now := LoadLedger(before, record).users, LoadLedger(after, record).users;
    var all := Touched(was, ip, at);
    Clean(was) && CleanIp(ip) ==>
      && Clean(now) && |now| == (if |all| <= 10 then |all| else 10)
      && forall who ::
           && (Has(now, who) <==> KeptIn(all, who))
           && (Has(now, who) && Has(was, who) ==> Since(now, who) == Since(was, who))
           && Booked(now, who) == (if KeptIn(all, who) then Booked(was, who) + (if who == ip then downloaded else 0) else 0)
           && Requested(now, who) == (if KeptIn(all, who) then Requested(was, who) + (if who == ip then requested else 0) else 0)
  }

  lemma BillCredits(before: string, users: seq<UserCache>, record: UserCache, ip: string, at: int, downloaded: int, requested: int)
    requires Billed(LoadLedger(before, record).users, users, ip, at, downloaded, requested)
    ensures Credits(before, LedgerText(users), record, ip, at, downloaded, requested)
  {
    hide LoadLedger, LedgerText, Kept, Touched, KeptIn, Has, Since, Booked, Requested, Billed;
    var was := LoadLedger(before, record).users;
    var all := Touched(was, ip, at);
    if Clean(was) && CleanIp(ip) {
      BillIsClean(was, users, ip, at, downloaded, requested);
      LedgerRoundTrip(users, record);
      KeptIsClean(users);
      forall who
        ensures Has(Kept(users), who) <==> KeptIn(all, who)
        ensures Has(Kept(users), who) && Has(was, who) ==> Since(Kept(users), who) == Since(was, who)
        ensures Booked(Kept(users), who) == if KeptIn(all, who) then Booked(was, who) + (if who == ip then downloaded else 0) else 0
        ensures Requested(Kept(users), who) == if KeptIn(all, who) then Requested(was, who) + (if who == ip then requested else 0) else 0
      {
        BillBooks(was, users, ip, at, downloaded, requested, who);
        KeptBooks(users, who);
      }
    }
  }

  /** What a credit does to the accounts of at most ten browsers. */
  lemma CreditsAmongFew(before: string, after: string, record: UserCache, ip: string, at: int, downloaded: int, requested: int,
                        browsers: set<string>)
    requires Credits(before, after, record, ip, at, downloaded, requested)
    requires var was := LoadLedger(before, record).users;
             Clean(was) && CleanIp(ip) && Among(was, browsers) && ip in browsers && |browsers| <= LIMIT_USERS
    ensures var was, now := LoadLedger(before, record).users, LoadLedger(after, record).users;
            && Clean(now) && Among(now, browsers)
            && forall who ::
                 && Booked(now, who) == Booked(was, who) + (if who == ip then downloaded else 0)
                 && Requested(now, who) == Requested(was, who) + (if who == ip then requested else 0)
  {
    hide LoadLedger, CleanIp;
    var was, now := LoadLedger(before, record).users, LoadLedger(after, record).users;
    var all := Touched(was, ip, at);
    TouchedHas(was, ip, at);
    NoMoreThan(all, browsers);
    forall who
      ensures KeptIn(all, who) <==> Has(was, who) || who == ip
    {
      FewAreKept(all, who);
    }
    hide Touched, KeptIn, Distinct;
  }

  lemma TouchedHas(was: seq<UserCache>, ip: string, at: int)
    requires Distinct(was)
    ensures Distinct(Touched(was, ip, at))
    ensures forall who :: Has(Touched(was, ip, at), who) <==> Has(was, who) || who == ip
  {
    var all := Touched(was, ip, at);
    forall who ensures Has(all, who) <==> Has(was, who) || who == ip {
      IndexUnique(all, who, if Has(was, who) then IndexOf(was, who) else if who == ip then |was| else |all|);
    }
  }
}
