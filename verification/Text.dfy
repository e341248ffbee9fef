/** Decimal numbers and separated fields: the text in which rows are kept. */
module Text {

  predicate IsDigit(c: char) { '0' <= c <= '9' }

  function DigitChar(d: nat): (c: char)
    requires d < 10
    ensures IsDigit(c) && DigitValue(c) == d && c as int == '0' as int + d
  {
    '0' + d as char
  }

  function DigitValue(c: char): (d: nat)
    requires IsDigit(c)
    ensures d < 10
  {
    c as int - '0' as int
  }

  function Digits(n: nat): string {
    if n < 10 then [DigitChar(n)] else Digits(n / 10) + [DigitChar(n % 10)]
  }

  /** A number as `<<` and `%lli` print it. */
  function Show(n: int): string {
    if n < 0 then "-" + Digits(-n) else Digits(n)
  }

  predicate AllDigits(s: string) { forall i :: 0 <= i < |s| ==> IsDigit(s[i]) }

  predicate IsSpace(c: char) { c == ' ' || 9 <= c as int <= 13 }

  function ParseDigits(s: string, acc: nat): nat {
    if s == [] || !IsDigit(s[0]) then acc else ParseDigits(s[1..], 10 * acc + DigitValue(s[0]))
  }

  /** atoll: blanks, a sign, digits up to the first other character. */
  function Atoll(s: string): int {
    if s == [] then 0
    else if IsSpace(s[0]) then Atoll(s[1..])
    else if s[0] == '-' then -(ParseDigits(s[1..], 0) as int)
    else if s[0] == '+' then ParseDigits(s[1..], 0)
    else ParseDigits(s, 0)
  }

  lemma {:induction false} ParseOneMore(s: string, c: char, acc: nat)
    requires AllDigits(s) && IsDigit(c)
    ensures ParseDigits(s + [c], acc) == 10 * ParseDigits(s, acc) + DigitValue(c)
    decreases |s|
  {
    if s == [] {
      assert (s + [c])[1..] == [];
    } else {
      assert (s + [c])[1..] == s[1..] + [c];
      ParseOneMore(s[1..], c, 10 * acc + DigitValue(s[0]));
    }
  }

  lemma {:induction false} DigitsParse(n: nat)
    ensures AllDigits(Digits(n)) && Digits(n) != []
    ensures ParseDigits(Digits(n), 0) == n
    decreases n
  {
    if n < 10 {
      assert Digits(n)[1..] == [];
    } else {
      DigitsParse(n / 10);
      ParseOneMore(Digits(n / 10), DigitChar(n % 10), 0);
    }
  }

  /** Reading back a printed number. */
  lemma AtollOfShow(n: int)
    ensures Atoll(Show(n)) == n
    ensures Show(n) != []
    ensures 0 <= n ==> AllDigits(Show(n))
  {
    if n < 0 {
      DigitsParse(-n);
      assert Show(n)[1..] == Digits(-n);
    } else {
      DigitsParse(n);
      assert IsDigit(Show(n)[0]);
    }
  }

  lemma {:induction false} ParseStops(s: string, rest: string, acc: nat)
    requires AllDigits(s) && (rest == "" || !IsDigit(rest[0]))
    ensures ParseDigits(s + rest, acc) == ParseDigits(s, acc)
    decreases |s|
  {
    if s == "" {
      assert s + rest == rest;
    } else {
      assert (s + rest)[1..] == s[1..] + rest;
      ParseStops(s[1..], rest, 10 * acc + DigitValue(s[0]));
    }
  }

  /** What atoll makes of a number with blanks before it and something else behind it. */
  lemma AtollMeaning(blanks: string, n: nat, rest: string)
    requires forall i :: 0 <= i < |blanks| ==> IsSpace(blanks[i])
    requires rest == "" || !IsDigit(rest[0])
    ensures Atoll(blanks + (Digits(n) + rest)) == n
    ensures Atoll(blanks + ("+" + (Digits(n) + rest))) == n
    ensures Atoll(blanks + ("-" + (Digits(n) + rest))) == -(n as int)
  {
    hide Atoll, Digits;
    var s := Digits(n) + rest;
    DigitsParse(n);
    ParseStops(Digits(n), rest, 0);
    assert s[0] == Digits(n)[0];
    AtollOfDigits(s);
    BlanksAreSkipped(blanks, s);
    BlanksAreSkipped(blanks, "+" + s);
    BlanksAreSkipped(blanks, "-" + s);
  }

  lemma AtollOfDigits(s: string)
    requires s != "" && IsDigit(s[0])
    ensures Atoll(s) == ParseDigits(s, 0) && Atoll("+" + s) == ParseDigits(s, 0) && Atoll("-" + s) == -(ParseDigits(s, 0) as int)
  {
    hide ParseDigits;
    assert ("+" + s)[1..] == s && ("-" + s)[1..] == s;
  }

  lemma {:induction false} BlanksAreSkipped(blanks: string, s: string)
    requires forall i :: 0 <= i < |blanks| ==> IsSpace(blanks[i])
    ensures Atoll(blanks + s) == Atoll(s)
    decreases |blanks|
  {
    if blanks == "" {
      assert blanks + s == s;
    } else {
      assert (blanks + s)[1..] == blanks[1..] + s;
      BlanksAreSkipped(blanks[1..], s);
    }
  }

  // ----- fields

  /** find_first_of: index of the first character of `s` among `seps`, |s| for none. */
  function FirstOf(s: string, seps: string): (f: nat)
    ensures f <= |s|
    ensures forall i :: 0 <= i < f ==> s[i] !in seps
    ensures f < |s| ==> s[f] in seps
  {
    if s == [] || s[0] in seps then 0 else 1 + FirstOf(s[1..], seps)
  }

  lemma FirstOfUnique(s: string, seps: string, f: nat)
    requires f <= |s| && (forall i :: 0 <= i < f ==> s[i] !in seps) && (f < |s| ==> s[f] in seps)
    ensures f == FirstOf(s, seps)
  {
  }

  /** stringexplode: the nonempty fields of `s` between separators. */
  function Explode(s: string, seps: string): seq<string>
    decreases |s|
  {
    var f := FirstOf(s, seps);
    if f == |s| then (if |s| > 0 then [s] else [])
    else (if f > 0 then [s[..f]] else []) + Explode(s[f + 1..], seps)
  }

  method StringExplode(text: string, seps: string, before: seq<string>) returns (results: seq<string>)
    ensures results == before + Explode(text, seps)
  {
    results := before;
    var str := text;
    var found := FirstOf(str, seps);
    while found != |str|
      invariant found == FirstOf(str, seps)
      invariant results + Explode(str, seps) == before + Explode(text, seps)
      decreases |str|
    {
      if found > 0 {
        results := results + [str[..found]];
      }
      str := str[found + 1..];
      found := FirstOf(str, seps);
    }
    if |str| > 0 {
      results := results + [str];
    }
  }

  function Join(fields: seq<string>, sep: char): string {
    if fields == [] then []
    else if |fields| == 1 then fields[0]
    else fields[0] + [sep] + Join(fields[1..], sep)
  }

  ghost predicate Fields(fields: seq<string>, sep: char) {
    forall i :: 0 <= i < |fields| ==> fields[i] != [] && sep !in fields[i]
  }

  /** Joined nonempty fields come apart again. */
  lemma {:induction false} ExplodeOfJoin(fields: seq<string>, sep: char)
    requires Fields(fields, sep)
    ensures Explode(Join(fields, sep), [sep]) == fields
    decreases |fields|
  {
    var s := Join(fields, sep);
    if |fields| == 1 {
      FirstOfUnique(s, [sep], |s|);
    } else if |fields| > 1 {
      var f := |fields[0]|;
      assert s[..f] == fields[0] && s[f] == sep && s[f + 1..] == Join(fields[1..], sep);
      forall i | 0 <= i < f ensures s[i] !in [sep] {
        assert s[i] == fields[0][i];
      }
      FirstOfUnique(s, [sep], f);
      ExplodeOfJoin(fields[1..], sep);
    }
  }

  lemma {:induction false} JoinSnoc(fields: seq<string>, last: string, sep: char)
    ensures Join(fields + [last], sep) ==
            if fields == [] then last else Join(fields, sep) + [sep] + last
    decreases |fields|
  {
    if fields != [] {
      assert (fields + [last])[1..] == fields[1..] + [last];
      JoinSnoc(fields[1..], last, sep);
      if |fields| > 1 {
        assert Join(fields, sep) + [sep] + last == fields[0] + [sep] + (Join(fields[1..], sep) + [sep] + last);
      }
    }
  }
}
