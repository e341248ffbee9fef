/** How a range list is written into the row of a file and read back. */
module RangeText {
  import opened Intervals
  import opened RangeWork
  import opened Text

  function RangeField(iv: Interval): string { Show(iv.a) + "-" + Show(iv.b) }

  function RangeFields(l: seq<Interval>): (f: seq<string>)
    ensures |f| == |l|
  {
    seq(|l|, i requires 0 <= i < |l| => RangeField(l[i]))
  }

  function PositionFields(l: seq<Interval>): (f: seq<string>)
    ensures |f| == |l|
  {
    seq(|l|, i requires 0 <= i < |l| => Show(l[i].position))
  }

  /** The `rg` column. */
  function RangesText(l: seq<Interval>): string { Join(RangeFields(l), ',') }

  /** The `pos` column. */
  function PositionsText(l: seq<Interval>): string { Join(PositionFields(l), ',') }

  lemma FieldsOneMore(l: seq<Interval>, i: nat)
    requires i < |l|
    ensures RangeFields(l[..i + 1]) == RangeFields(l[..i]) + [RangeField(l[i])]
    ensures PositionFields(l[..i + 1]) == PositionFields(l[..i]) + [Show(l[i].position)]
  {
    hide RangeField, Show;
  }

  lemma JoinOneMore(fields: seq<string>, last: string)
    ensures Join(fields + [last], ',') == Join(fields, ',') + (if fields == [] then "" else ",") + last
  {
    JoinSnoc(fields, last, ',');
  }

  lemma TextOneMore(l: seq<Interval>, i: nat)
    requires i < |l|
    ensures RangesText(l[..i + 1]) == RangesText(l[..i]) + (if i == 0 then "" else ",") + RangeField(l[i])
    ensures PositionsText(l[..i + 1]) == PositionsText(l[..i]) + (if i == 0 then "" else ",") + Show(l[i].position)
  {
    FieldsOneMore(l, i);
    JoinOneMore(RangeFields(l[..i]), RangeField(l[i]));
    JoinOneMore(PositionFields(l[..i]), Show(l[i].position));
  }

  method List2String(l: seq<Interval>) returns (intervals: string, positions: string)
    ensures intervals == RangesText(l) && positions == PositionsText(l)
  {
    intervals, positions := [], [];
    var comma := "";
    var i := 0;
    while i < |l|
      invariant 0 <= i <= |l|
      invariant intervals == RangesText(l[..i]) && positions == PositionsText(l[..i])
      invariant comma == if i == 0 then "" else ","
    {
      TextOneMore(l, i);
      intervals := intervals + comma + (Show(l[i].a) + "-" + Show(l[i].b));
      positions := positions + comma + Show(l[i].position);
      comma := ",";
      i := i + 1;
    }
    assert l[..i] == l;
  }

  /** Outcome of generateList; on failure the list keeps what was read so far. */
  datatype Loaded = Loaded(ok: bool, list: seq<Interval>)

  function LoadFields(ranges: seq<string>, parts: seq<string>, i: nat, acc: seq<Interval>): Loaded
    requires |ranges| == |parts| && i <= |ranges|
    decreases |ranges| - i
  {
    if i == |ranges| then Loaded(true, acc)
    else
      var rang := Explode(ranges[i], "-");
      if |rang| < 2 || Atoll(rang[0]) > Atoll(rang[1]) then Loaded(false, acc)
      else LoadFields(ranges, parts, i + 1, [Interval(Atoll(rang[0]), Atoll(rang[1]), Atoll(parts[i]))] + acc)
  }

  function Load(ranges: string, positions: string): Loaded {
    var resul, part := Explode(ranges, ","), Explode(positions, ",");
    if |part| != |resul| then Loaded(false, []) else LoadFields(resul, part, 0, [])
  }

  method GenerateList(ranges: string, positions: string) returns (ok: bool, list: seq<Interval>)
    ensures Loaded(ok, list) == Load(ranges, positions)
  {
    list := [];
    var resul := StringExplode(ranges, ",", []);
    var part := StringExplode(positions, ",", []);
    assert resul == Explode(ranges, ",") && part == Explode(positions, ",");
    if |part| != |resul| {
      return false, list;
    }
    var i := 0;
    while i < |resul|
      invariant 0 <= i <= |resul|
      invariant LoadFields(resul, part, i, list) == Load(ranges, positions)
    {
      var rang := StringExplode(resul[i], "-", []);
      if |rang| < 2 {
        return false, list;
      }
      assert rang == Explode(resul[i], "-");
      var a, b := Atoll(rang[0]), Atoll(rang[1]);
      if a > b {
        return false, list;
      }
      list := [Interval(a, b, Atoll(part[i]))] + list;
      i := i + 1;
    }
    ok := true;
  }

  function Reversed(l: seq<Interval>): (r: seq<Interval>)
    ensures |r| == |l| && forall i :: 0 <= i < |l| ==> r[i] == l[|l| - 1 - i]
  {
    if l == [] then [] else Reversed(l[1..]) + [l[0]]
  }

  /** A range field that can be read: two numbers, in order. */
  ghost predicate Readable(field: string) {
    var rang := Explode(field, "-");
    |rang| >= 2 && Atoll(rang[0]) <= Atoll(rang[1])
  }

  /** The interval of a range field and a position field. */
  ghost function FieldInterval(field: string, part: string): Interval
    requires Readable(field)
  {
    Interval(Atoll(Explode(field, "-")[0]), Atoll(Explode(field, "-")[1]), Atoll(part))
  }

  /** `l` is what the first `n` fields say, the last of them in front. */
  ghost predicate ReadFrom(ranges: seq<string>, parts: seq<string>, n: nat, l: seq<Interval>)
    requires n <= |ranges| == |parts|
  {
    && |l| == n && (forall j :: 0 <= j < n ==> Readable(ranges[j]))
    && forall j :: 0 <= j < n ==> l[n - 1 - j] == FieldInterval(ranges[j], parts[j])
  }

  lemma ReadOneMore(ranges: seq<string>, parts: seq<string>, n: nat, l: seq<Interval>)
    requires n < |ranges| == |parts| && ReadFrom(ranges, parts, n, l) && Readable(ranges[n])
    ensures ReadFrom(ranges, parts, n + 1, [FieldInterval(ranges[n], parts[n])] + l)
  {
    hide Readable, FieldInterval;
  }

  /** Loading stops at the first field that cannot be read, with the list of those before. */
  lemma {:induction false} LoadFieldsMeaning(ranges: seq<string>, parts: seq<string>, i: nat, acc: seq<Interval>)
    requires i <= |ranges| == |parts| && ReadFrom(ranges, parts, i, acc)
    ensures var r := LoadFields(ranges, parts, i, acc);
            && |r.list| <= |ranges| && ReadFrom(ranges, parts, |r.list|, r.list)
            && (if |r.list| == |ranges| then r.ok else !r.ok && !Readable(ranges[|r.list|]))
    decreases |ranges| - i
  {
    hide ReadFrom, Explode, Atoll;
    if i < |ranges| && Readable(ranges[i]) {
      ReadOneMore(ranges, parts, i, acc);
      LoadFieldsMeaning(ranges, parts, i + 1, [FieldInterval(ranges[i], parts[i])] + acc);
    } else {
      LengthRead(ranges, parts, i, acc);
    }
  }

  lemma LengthRead(ranges: seq<string>, parts: seq<string>, n: nat, l: seq<Interval>)
    requires n <= |ranges| == |parts| && ReadFrom(ranges, parts, n, l)
    ensures |l| == n
  {
  }

  /** Two columns load if and only if they have as many fields and every range can be read; the
      list is what the fields say, last first, also when loading fails on the way. */
  lemma LoadMeaning(ranges: string, positions: string)
    ensures var r, f, g := Load(ranges, positions), Explode(ranges, ","), Explode(positions, ",");
            if |f| != |g| then r == Loaded(false, [])
            else
              && |r.list| <= |f| && ReadFrom(f, g, |r.list|, r.list)
              && (if |r.list| == |f| then r.ok else !r.ok && !Readable(f[|r.list|]))
  {
    hide Readable, FieldInterval, Explode, Atoll, LoadFields;
    var f, g := Explode(ranges, ","), Explode(positions, ",");
    if |f| == |g| {
      assert ReadFrom(f, g, 0, []);
      LoadFieldsMeaning(f, g, 0, []);
    }
  }

  lemma DigitsAreNoSeparator(s: string)
    requires AllDigits(s)
    ensures '-' !in s && ',' !in s
  {
  }

  lemma FieldReads(iv: Interval)
    requires 0 <= iv.a <= iv.b
    ensures Explode(RangeField(iv), "-") == [Show(iv.a), Show(iv.b)]
    ensures RangeField(iv) != [] && ',' !in RangeField(iv)
  {
    AtollOfShow(iv.a);
    AtollOfShow(iv.b);
    DigitsAreNoSeparator(Show(iv.a));
    DigitsAreNoSeparator(Show(iv.b));
    var f := [Show(iv.a), Show(iv.b)];
    assert f[1..] == [Show(iv.b)];
    assert Join(f, '-') == RangeField(iv);
    ExplodeOfJoin(f, '-');
  }

  lemma {:induction false} LoadFieldsBack(l: seq<Interval>, i: nat, acc: seq<Interval>)
    requires WellFormed(l) && i <= |l| && acc == Reversed(l[..i])
    ensures LoadFields(RangeFields(l), PositionFields(l), i, acc) == Loaded(true, Reversed(l))
    decreases |l| - i
  {
    if i == |l| {
      assert l[..i] == l;
    } else {
      assert l[i] in l;
      FieldReads(l[i]);
      AtollOfShow(l[i].a);
      AtollOfShow(l[i].b);
      AtollOfShow(l[i].position);
      assert [l[i]] + Reversed(l[..i]) == Reversed(l[..i + 1]);
      LoadFieldsBack(l, i + 1, [l[i]] + acc);
    }
  }

  /** Writing a list into the row and loading it again gives the list reversed. */
  lemma LoadOfText(l: seq<Interval>)
    requires WellFormed(l)
    ensures Load(RangesText(l), PositionsText(l)) == Loaded(true, Reversed(l))
  {
    forall i | 0 <= i < |l|
      ensures RangeFields(l)[i] != [] && ',' !in RangeFields(l)[i]
      ensures PositionFields(l)[i] != [] && ',' !in PositionFields(l)[i]
    {
      assert l[i] in l;
      FieldReads(l[i]);
      AtollOfShow(l[i].position);
      DigitsAreNoSeparator(Show(l[i].position));
    }
    ExplodeOfJoin(RangeFields(l), ',');
    ExplodeOfJoin(PositionFields(l), ',');
    LoadFieldsBack(l, 0, []);
  }

  lemma ReversedKeepsDisjoint(l: seq<Interval>)
    requires OriginDisjoint(l) && DiskDisjoint(l)
    ensures OriginDisjoint(Reversed(l)) && DiskDisjoint(Reversed(l)) && SameEntries(l, Reversed(l))
  {
    var r := Reversed(l);
    forall i, j | 0 <= i < j < |r| ensures Apart(r[i], r[j]) && DiskApart(r[i], r[j]) {
      assert Apart(l[|l| - 1 - j], l[|l| - 1 - i]) && DiskApart(l[|l| - 1 - j], l[|l| - 1 - i]);
    }
    forall iv ensures iv in l <==> iv in r {
      if iv in l {
        var i :| 0 <= i < |l| && l[i] == iv;
        assert r[|l| - 1 - i] == iv;
      }
    }
  }

  /** A valid list survives the row: what is loaded is valid, says the same about every
      origin byte, ends at the same offset, has the same size and extreme, and leads to
      the same plan for every window. */
  lemma RowRoundTrip(l: seq<Interval>)
    requires Layout(l)
    ensures Load(RangesText(l), PositionsText(l)).ok
    ensures var m := Load(RangesText(l), PositionsText(l)).list;
            && Layout(m) && PointEnd(m) == PointEnd(l) && FileSize(m) == FileSize(l)
            && (forall e :: IsExtreme(l, e) <==> IsExtreme(m, e))
            && (forall k, q :: Holds(l, k, q) <==> Holds(m, k, q))
            && (forall a, b :: WorkPlan(m, a, b) == WorkPlan(l, a, b))
  {
    LoadOfText(l);
    ReversedKeepsDisjoint(l);
    ReorderKeepsMeaning(l, Reversed(l));
    SortForgetsOrder(l, Reversed(l));
  }
}
