/** Chunked bodies: ReadBodyPart of HTTPHandler with Chunked set, one chunk a call. */
module Chunked {
  import opened Socket
  import opened Http

  const CRLF: string := "\r\n"
  const HEX: string := "0123456789ABCDEF"
  const MAX_CHUNK: nat := 1048576
  const MAX_SIZE_LINE: nat := 256

  function Upper(c: char): char {
    if 'a' <= c <= 'z' then c - 'a' + 'A' else c
  }

  function UpperCase(s: string): (r: string)
    ensures |r| == |s| && forall i :: 0 <= i < |s| ==> r[i] == Upper(s[i])
  {
    seq(|s|, i requires 0 <= i < |s| => Upper(s[i]))
  }

  function HexDigit(c: char): nat {
    if '0' <= c <= '9' then c as int - '0' as int
    else if 'A' <= c <= 'F' then c as int - 'A' as int + 10
    else 0
  }

  /** sscanf of a string of upper-case hex digits with %x. */
  function HexValue(s: string): nat {
    if s == "" then 0 else 16 * HexValue(s[..|s| - 1]) + HexDigit(s[|s| - 1])
  }

  // ----- section 4.1 of RFC 7230

  /** A chunk: its size in hex digits, what else its size line holds, and its data. The last
      chunk has size 0 and no data. */
  datatype Chunk = Chunk(size: string, extension: string, data: string) {
    function Line(): string { size + extension }
  }

  predicate IsHex(c: char)
    ensures IsHex(c) <==> '0' <= c <= '9' || 'A' <= c <= 'F' || 'a' <= c <= 'f'
  {
    HexHas(Upper(c));
    OneOf(Upper(c), HEX)
  }

  lemma HexHas(c: char)
    ensures c in HEX <==> '0' <= c <= '9' || 'A' <= c <= 'F'
  {
    if '0' <= c <= '9' {
      assert HEX[c as int - '0' as int] == c;
    } else if 'A' <= c <= 'F' {
      assert HEX[c as int - 'A' as int + 10] == c;
    }
  }

  ghost predicate ValidLine(c: Chunk) {
    && 1 <= |c.size| <= 7
    && (forall i :: 0 <= i < |c.size| ==> IsHex(c.size[i]))
    && (c.extension != "" ==> !IsHex(c.extension[0]))
    && Find(c.Line() + CRLF, CRLF) == |c.Line()|
    && HexValue(UpperCase(c.size)) == |c.data| <= MAX_CHUNK
  }

  /** The stream begins, after `lead`, with chunk `c`. */
  ghost predicate Starts(ready: string, lead: string, c: Chunk) {
    && (lead == "" || lead == CRLF) && ValidLine(c)
    && lead + c.Line() + CRLF + c.data <= ready
  }

  /** What a peek shows. */
  ghost function Visible(buffered: string, net: seq<Event>): string {
    if buffered != "" then buffered else if net != [] && net[0].Data? then net[0].bytes else ""
  }

  /** The first `n` bytes behind `lead` are in the buffer when the size line is looked for. */
  ghost predicate LineVisible(buffered: string, net: seq<Event>, lead: string, n: nat) {
    var v := Visible(buffered, net);
    if lead == "" then n <= |v|
    else
      && 2 <= |v|
      && (if 2 < |v| then n <= |v| - 2
          else n <= |Visible("", if buffered != "" then net else if net != [] then net[1..] else [])|)
  }

  lemma HexLength(c: Chunk, line: string)
    requires ValidLine(c) && c.Line() + CRLF <= line
    ensures FirstNotOf(UpperCase(line), HEX) == |c.size| < |line|
    ensures UpperCase(line)[..|c.size|] == UpperCase(c.size)
  {
    hide Find, HexValue, FirstNotOf;
    var u := UpperCase(line);
    var n := |c.size|;
    forall j | 0 <= j < n ensures OneOf(u[j], HEX) {
      assert line[j] == c.size[j];
      assert IsHex(c.size[j]);
    }
    assert line[n] == if c.extension != "" then c.extension[0] else '\r';
    FirstNotOfUnique(u, HEX, n);
  }

  /** What a size line that is not fully visible leaves the reader with: a buffer without a
      line break that cannot make one with its own copy. */
  ghost predicate Stuck(buffer: string) {
    buffer != "" && Find(buffer, CRLF) == -1 && buffer[0] != '\n'
  }

  lemma BreakAt(s: string, j: int)
    ensures Occurs(s, CRLF, j) <==> 0 <= j && j + 2 <= |s| && s[j] == '\r' && s[j + 1] == '\n'
  {
    if 0 <= j && j + 2 <= |s| {
      assert s[j..j + 2] == [s[j], s[j + 1]];
    }
  }

  lemma NoBreakInCopies(temp: string, buffer: string)
    requires Find(temp, CRLF) == -1 && Stuck(buffer)
    ensures Find(temp + buffer, CRLF) == -1
  {
    forall j | 0 <= j ensures !Occurs(temp + buffer, CRLF, j) {
      BreakAt(temp + buffer, j);
      BreakAt(temp, j);
      if j >= |temp| {
        BreakAt(buffer, j - |temp|);
      }
    }
  }

  /** A peek at a line: what is visible is in the buffer, and the rest is as it was. */
  lemma PeekShows(buffered: string, net: seq<Event>, buffered': string, net': seq<Event>, lead: string, n: nat)
    requires buffered' != ""
    requires if buffered != "" then buffered' == buffered && net' == net
             else net != [] && net[0].Data? && buffered' == net[0].bytes && net' == net[1..]
    ensures buffered' == Visible(buffered, net)
    ensures LineVisible(buffered', net', lead, n) <==> LineVisible(buffered, net, lead, n)
    ensures n > 0 ==> After(buffered', net', |lead| + n) == After(buffered, net, |lead| + n)
  {
  }

  /** The buffer shows a line of its own: all of it, or too little of it. */
  lemma LineInBuffer(buffer: string, ready: string, c: Chunk)
    requires Starts(ready, "", c) && buffer <= ready && buffer != ""
    ensures |c.Line()| + 2 <= |buffer| ==> c.Line() + CRLF <= buffer && Find(buffer, CRLF) == |c.Line()| > 0
    ensures |buffer| < |c.Line()| + 2 ==> Stuck(buffer)
  {
    hide ValidLine, Find;
    var line := c.Line() + CRLF;
    LineBreaks(c);
    PrefixOfPrefix(line, c.data, ready);
    FindInPrefix(ready, |line|, CRLF);
    FindInPrefix(ready, |buffer|, CRLF);
    assert ready[..|line|] == line && ready[..|buffer|] == buffer;
  }

  /** A size line ends at its first line break and does not begin with half of one. */
  lemma LineBreaks(c: Chunk)
    requires ValidLine(c)
    ensures Find(c.Line() + CRLF, CRLF) == |c.Line()| > 0
    ensures c.Line()[0] != '\n'
  {
    hide Find, HexValue;
    assert c.Line()[0] == c.size[0] && IsHex(c.size[0]);
    assert !IsHex('\n');
  }

  lemma PrefixOfPrefix(p: string, q: string, s: string)
    requires p + q <= s
    ensures p <= s
  {
    assert s[..|p|] == (p + q)[..|p|] == p;
  }

  /** A leading line break in the buffer: found at once, or cut. */
  lemma LeadInBuffer(buffer: string, ready: string, c: Chunk)
    requires Starts(ready, CRLF, c) && buffer <= ready && buffer != ""
    ensures 2 <= |buffer| ==> Find(buffer, CRLF) == 0
    ensures |buffer| < 2 ==> Stuck(buffer)
  {
    assert CRLF <= ready;
    assert buffer[0] == ready[0];
    if 2 <= |buffer| {
      assert buffer[0..2] == ready[0..2] == CRLF;
      assert Occurs(buffer, CRLF, 0);
    }
  }

  lemma AfterLead(ready: string, c: Chunk)
    requires Starts(ready, CRLF, c)
    ensures Starts(ready[2..], "", c) && 2 <= |ready|
  {
    hide ValidLine;
    DropBoth(CRLF + c.Line() + CRLF + c.data, ready, 2);
    assert (CRLF + c.Line() + CRLF + c.data)[2..] == "" + c.Line() + CRLF + c.data;
  }

  lemma DropBoth(p: string, s: string, n: nat)
    requires p <= s && n <= |p|
    ensures p[n..] <= s[n..]
  {
  }

  /** What the first line break in a freshly filled buffer tells. */
  lemma BufferTells(buffer: string, net: seq<Event>, lead: string, c: Chunk)
    requires buffer != "" && Starts(buffer + Prefix(net), lead, c)
    ensures var shown := LineVisible(buffer, net, lead, |c.Line()| + 2);
            var position := Find(buffer, CRLF);
            if position == 0 then lead == CRLF && 2 <= |buffer|
            else if position > 0 then
              lead == "" && shown && position == |c.Line()| && c.Line() + CRLF <= buffer
            else !shown && Stuck(buffer)
  {
    hide ValidLine, Find;
    var ready := buffer + Prefix(net);
    assert buffer <= ready;
    if lead == "" {
      LineInBuffer(buffer, ready, c);
    } else {
      LeadInBuffer(buffer, ready, c);
    }
  }

  /** The size in a visible size line. */
  lemma SizeInBuffer(buffer: string, c: Chunk)
    requires ValidLine(c) && c.Line() + CRLF <= buffer
    ensures var hpos := FirstNotOf(UpperCase(buffer), HEX);
            1 <= hpos <= 7 && hpos < |buffer| && HexValue(UpperCase(buffer)[..hpos]) == |c.data|
  {
    HexLength(c, buffer);
  }

  /** Where buffer and network stand behind `n` more bytes. */
  ghost function Behind(sock: SocketHandler, n: nat): (string, seq<Event>)
    reads sock
  {
    After(sock.recvBuf, sock.net, n)
  }

  /** Where the reader stands: `todo` of the leading line break and the line are ahead, with
      `end` behind them, and what was seen without a line break holds the reader up for good. */
  ghost predicate Looking(sock: SocketHandler, ready: string, lead: string, c: Chunk, shown: bool,
                          end: (string, seq<Event>), todo: string, temp: string)
    reads sock
  {
    && Behind(sock, |todo| + |c.Line()| + 2) == end
    && Starts(sock.Ready(), todo, c) && (todo == lead || todo == "")
    && |todo| <= |lead| <= |ready| && sock.Ready() == ready[|lead| - |todo|..]
    && (LineVisible(sock.recvBuf, sock.net, todo, |c.Line()| + 2) <==> shown)
    && (temp != "" ==> Find(temp, CRLF) == -1 && Stuck(sock.recvBuf) && !shown)
  }

  /** One more look: the buffer, filled if it was empty, joins `temp`. */
  method Look(sock: SocketHandler, temp: string, ghost well: bool, ghost ready: string, ghost lead: string, ghost c: Chunk, ghost shown: bool,
              ghost end: (string, seq<Event>), ghost todo: string)
    returns (read: int, r: string)
    requires Deliverable(sock.net)
    requires well ==> Looking(sock, ready, lead, c, shown, end, todo, temp)
    modifies sock
    ensures Deliverable(sock.net) && sock.Stream() == old(sock.Stream())
    ensures read > 0 ==> sock.recvBuf != "" && r != ""
    ensures well ==>
              && read > 0 && Looking(sock, ready, lead, c, shown, end, todo, "")
              && var position := Find(r, CRLF);
                 if position == 0 then todo == CRLF && r == sock.recvBuf && 2 <= |r|
                 else if position > 0 then
                   && todo == "" && shown && r == sock.recvBuf
                   && position == |c.Line()| && c.Line() + CRLF <= r
                 else !shown && Stuck(sock.recvBuf)
  {
    hide ValidLine, Find, Starts, LineVisible, Deliverable;
    ghost var b, n := sock.recvBuf, sock.net;
    read, r := sock.Recv(temp, false);
    if well {
      StartsNonEmpty(old(sock.Ready()), todo, c);
      assert sock.Ready() == old(sock.Ready());
      PeekShows(b, n, sock.recvBuf, sock.net, todo, |c.Line()| + 2);
      if temp == "" {
        BufferTells(sock.recvBuf, sock.net, todo, c);
      } else {
        NoBreakInCopies(temp, sock.recvBuf);
      }
    }
  }

  lemma StartsNonEmpty(ready: string, lead: string, c: Chunk)
    requires Starts(ready, lead, c)
    ensures ready != "" && ValidLine(c)
  {
    hide Find, IsHex, HexValue;
    assert |lead + c.Line() + CRLF + c.data| <= |ready|;
  }

  /** The loop that reads a size line: the size, or -1 when it is malformed, too long or
      never shows its line break. `lead` and `c` say what the stream begins with, if it does. */
  method ReadSizeLine(sock: SocketHandler, ghost lead: string, ghost c: Chunk) returns (csize: int)
    requires Deliverable(sock.net)
    modifies sock
    ensures Deliverable(sock.net) && -1 <= csize
    ensures Starts(old(sock.Ready()), lead, c) ==>
              if LineVisible(old(sock.recvBuf), old(sock.net), lead, |c.Line()| + 2) then
                && csize == |c.data| && sock.Ready() == old(sock.Ready())[|lead| + |c.Line()| + 2..]
                && (sock.recvBuf, sock.net) == old(Behind(sock, |lead| + |c.Line()| + 2))
              else csize == -1
  {
    hide Starts, LineVisible, Deliverable, ValidLine, Find, Stuck;
    ghost var ready, well := sock.Ready(), Starts(sock.Ready(), lead, c);
    ghost var shown := LineVisible(sock.recvBuf, sock.net, lead, |c.Line()| + 2);
    ghost var end := Behind(sock, |lead| + |c.Line()| + 2);
    ghost var todo := lead;
    if well { StartsBounds(ready, lead, c); }
    var temp, received := "", 0;
    while true
      invariant Deliverable(sock.net) && 0 <= received <= MAX_SIZE_LINE
      invariant well ==> Looking(sock, ready, lead, c, shown, end, todo, temp)
      decreases |sock.Stream()|, MAX_SIZE_LINE - received
    {
      csize := -1;
      var read;
      read, temp := Look(sock, temp, well, ready, lead, c, shown, end, todo);
      if read < 1 {
        return;
      }
      var position := Find(temp, CRLF);
      if position == 0 {
        SkipBreak(sock, temp, well, ready, lead, c, shown, end, todo);
        temp := "";
        todo := "";
        continue;
      }
      if position > 0 {
        csize := TakeSize(sock, temp, position, well, c);
        return;
      }
      received := received + read;
      if received > MAX_SIZE_LINE {
        return;
      }
    }
  }

  lemma StartsBounds(ready: string, lead: string, c: Chunk)
    requires Starts(ready, lead, c)
    ensures |lead| <= |ready| && ready == ready[|lead| - |lead|..] && ValidLine(c)
  {
    hide ValidLine;
    assert |lead + c.Line() + CRLF + c.data| <= |ready|;
  }

  /** The line break left over from the chunk before. */
  method SkipBreak(sock: SocketHandler, temp: string, ghost well: bool, ghost ready: string, ghost lead: string, ghost c: Chunk, ghost shown: bool,
                   ghost end: (string, seq<Event>), ghost todo: string)
    requires Deliverable(sock.net) && sock.recvBuf != ""
    requires well ==> Looking(sock, ready, lead, c, shown, end, todo, "") && todo == CRLF && 2 <= |sock.recvBuf|
    modifies sock
    ensures Deliverable(sock.net) && |sock.Stream()| < |old(sock.Stream())|
    ensures well ==> Looking(sock, ready, lead, c, shown, end, "", "")
  {
    hide ValidLine, Starts, Find;
    ghost var b, n := sock.recvBuf, sock.net;
    if well {
      AfterLead(sock.Ready(), c);
      BreakSkipped(b, n, |c.Line()| + 2);
    }
    var _, _ := sock.RecvLength(temp, 2);
    if well {
      assert sock.Ready() == old(sock.Ready())[2..];
      assert ready[|lead| - 2..][2..] == ready[|lead|..];
    }
  }

  lemma BreakSkipped(buffered: string, net: seq<Event>, n: nat)
    requires 2 <= |buffered|
    ensures LineVisible(buffered[2..], net, "", n) <==> LineVisible(buffered, net, CRLF, n)
    ensures After(buffered[2..], net, n) == After(buffered, net, 2 + n)
  {
  }

  /** The size of a line whose break is at `position`; the line is consumed. */
  method TakeSize(sock: SocketHandler, temp: string, position: nat, ghost well: bool, ghost c: Chunk) returns (csize: int)
    requires Deliverable(sock.net)
    requires well ==> temp == sock.recvBuf && ValidLine(c) && position == |c.Line()| && c.Line() + CRLF <= temp
    modifies sock
    ensures Deliverable(sock.net) && -1 <= csize
    ensures well ==>
              && csize == |c.data| && sock.Ready() == old(sock.Ready())[position + 2..]
              && (sock.recvBuf, sock.net) == old(Behind(sock, position + 2))
  {
    hide ValidLine;
    if well {
      SizeInBuffer(temp, c);
    }
    var upper := UpperCase(temp);
    var hpos := FirstNotOf(upper, HEX);
    if hpos == |temp| || hpos < 1 || hpos > 7 {
      return -1;
    }
    csize := HexValue(upper[..hpos]);
    var _, _ := sock.RecvLength(temp, position + 2);
    if well {
      assert sock.Ready() == old(sock.Ready())[position + 2..];
    }
  }

  /** ReadBodyPart, chunked: on a stream that begins with a chunk the call gives the chunk's
      data and leaves the stream right behind it (0 for the last chunk) if and only if the
      whole size line is in the buffer when it is looked for; else it gives -1. */
  method ReadChunk(sock: SocketHandler, ghost lead: string, ghost c: Chunk) returns (r: int, bodyT: string)
    requires Deliverable(sock.net)
    modifies sock
    ensures Deliverable(sock.net) && -1 <= r <= 1048576
    ensures r <= 0 ==> bodyT == "" || r == -1
    ensures Starts(old(sock.Ready()), lead, c) ==>
              if LineVisible(old(sock.recvBuf), old(sock.net), lead, |c.Line()| + 2) then
                && r == |c.data| && bodyT == c.data
                && sock.Ready() == old(sock.Ready())[|lead| + |c.Line()| + 2 + |c.data|..]
                && (sock.recvBuf, sock.net) == old(Behind(sock, |lead| + |c.Line()| + 2 + |c.data|))
              else r == -1
  {
    hide LineVisible, Find, IsHex;
    bodyT := "";
    var csize := ReadSizeLine(sock, lead, c);
    if csize < 0 {
      return -1, bodyT;
    }
    ghost var ready := old(sock.Ready());
    ghost var well := Starts(ready, lead, c) && sock.Ready() == ready[|lead| + |c.Line()| + 2..] && csize == |c.data|;
    if well {
      DataFollows(ready, lead, c);
      AfterTwice(old(sock.recvBuf), old(sock.net), |lead| + |c.Line()| + 2, |c.data|);
      AfterWithin(sock.recvBuf, sock.net, 0);
    }
    if csize == 0 {
      return 0, bodyT;
    }
    if csize > MAX_CHUNK {
      return -1, bodyT;
    }
    var ok;
    ok, bodyT := sock.RecvLength(bodyT, csize);
    if !ok {
      return -1, bodyT;
    }
    r := csize;
    if well {
      assert sock.Ready() == ready[|lead| + |c.Line()| + 2..][csize..];
    }
  }

  lemma DataFollows(ready: string, lead: string, c: Chunk)
    requires Starts(ready, lead, c)
    ensures var n := |lead| + |c.Line()| + 2;
            && n + |c.data| <= |ready| && ready[n..][..|c.data|] == c.data
            && ready[n..][|c.data|..] == ready[n + |c.data|..] && |c.data| <= MAX_CHUNK
  {
    hide Find, IsHex;
    var all := lead + c.Line() + CRLF + c.data;
    var n := |lead| + |c.Line()| + 2;
    assert ready[..|all|] == all;
    assert all[n..] == c.data;
  }

  // ----- a whole body

  ghost predicate ValidBody(cs: seq<Chunk>) {
    && cs != []
    && (forall i :: 0 <= i < |cs| ==> ValidLine(cs[i]))
    && (forall i :: 0 <= i < |cs| ==> (cs[i].data == "" <==> i == |cs| - 1))
  }

  function Encoded(lead: string, cs: seq<Chunk>): string
    decreases |cs|
  {
    if cs == [] then "" else lead + cs[0].Line() + CRLF + cs[0].data + Encoded(CRLF, cs[1..])
  }

  function DataOf(cs: seq<Chunk>): string {
    if cs == [] then "" else cs[0].data + DataOf(cs[1..])
  }

  lemma EncodedStarts(ready: string, lead: string, cs: seq<Chunk>)
    requires ValidBody(cs) && Encoded(lead, cs) <= ready && (lead == "" || lead == CRLF)
    ensures Starts(ready, lead, cs[0])
    ensures var n := |lead| + |cs[0].Line()| + 2 + |cs[0].data|;
            n <= |ready| && Encoded(CRLF, cs[1..]) <= ready[n..]
    ensures |cs| > 1 ==> ValidBody(cs[1..])
  {
    hide ValidLine;
    var one := lead + cs[0].Line() + CRLF + cs[0].data;
    var rest := Encoded(CRLF, cs[1..]);
    assert one + rest == Encoded(lead, cs);
    assert ready[..|one| + |rest|] == one + rest;
    assert ready[|one|..][..|rest|] == rest;
    assert ready[..|one|] == one;
  }

  /** How many chunks come through: each has its size line in the buffer when it is looked
      for, the chunks before it consumed. */
  ghost function ChunksVisible(buffered: string, net: seq<Event>, lead: string, cs: seq<Chunk>): (n: nat)
    ensures n <= |cs|
    decreases |cs|
  {
    if cs == [] || !LineVisible(buffered, net, lead, |cs[0].Line()| + 2) then 0
    else
      var (b, rest) := After(buffered, net, |lead| + |cs[0].Line()| + 2 + |cs[0].data|);
      1 + ChunksVisible(b, rest, CRLF, cs[1..])
  }

  /** Repeated calls on a chunked body give the data of the chunks in order, up to the first
      whose size line is cut, and then -1; they end with 0 if and only if none is cut. */
  method ReadChunks(sock: SocketHandler, ghost cs: seq<Chunk>) returns (r: int, out: string)
    requires Deliverable(sock.net) && ValidBody(cs) && Encoded("", cs) <= sock.Ready()
    modifies sock
    ensures var n := ChunksVisible(old(sock.recvBuf), old(sock.net), "", cs);
            && r == (if n == |cs| then 0 else -1)
            && out == DataOf(cs[..n])
  {
    hide Starts, LineVisible, Encoded, Deliverable, ValidLine, After;
    out := "";
    ghost var done, lead := 0, "";
    ghost var n := ChunksVisible(sock.recvBuf, sock.net, "", cs);
    assert cs[0..] == cs;
    while true
      invariant Deliverable(sock.net) && 0 <= done < |cs| && (lead == "" || lead == CRLF)
      invariant ValidBody(cs[done..]) && Encoded(lead, cs[done..]) <= sock.Ready()
      invariant out == DataOf(cs[..done])
      invariant done + ChunksVisible(sock.recvBuf, sock.net, lead, cs[done..]) == n
      decreases |cs| - done
    {
      EncodedStarts(sock.Ready(), lead, cs[done..]);
      LastIsEmpty(cs[done..]);
      assert cs[done..][0] == cs[done] && cs[done..][1..] == cs[done + 1..];
      var part;
      r, part := ReadChunk(sock, lead, cs[done]);
      if r == -1 {
        return;
      }
      DataGrows(cs, done);
      out := out + part;
      done := done + 1;
      lead := CRLF;
      if r == 0 {
        return;
      }
    }
  }

  lemma LastIsEmpty(cs: seq<Chunk>)
    requires ValidBody(cs)
    ensures cs[0].data == "" <==> |cs| == 1
  {
  }

  lemma {:induction false} DataGrows(cs: seq<Chunk>, n: nat)
    requires n < |cs|
    ensures DataOf(cs[..n + 1]) == DataOf(cs[..n]) + cs[n].data
    decreases n
  {
    if n > 0 {
      DataGrows(cs[1..], n - 1);
      assert cs[..n + 1][1..] == cs[1..][..n] && cs[..n][1..] == cs[1..][..n - 1];
    } else {
      assert cs[..1][1..] == [];
    }
  }

  // ----- bodies as a server writes them

  function HexChar(d: nat, lower: bool): char
    requires d < 16
  {
    if d < 10 then '0' + d as char else (if lower then 'a' else 'A') + (d - 10) as char
  }

  /** A number in hex, as `%x` and `%X` print it. */
  function Hex(n: nat, lower: bool): string {
    (if n < 16 then "" else Hex(n / 16, lower)) + [HexChar(n % 16, lower)]
  }

  lemma HexCharReads(d: nat, lower: bool)
    requires d < 16
    ensures HexDigit(Upper(HexChar(d, lower))) == d && IsHex(HexChar(d, lower))
  {
  }

  /** Reading a size back gives the number, in either case. */
  lemma {:induction false} HexRoundTrip(n: nat, lower: bool)
    ensures HexValue(UpperCase(Hex(n, lower))) == n
    ensures forall i :: 0 <= i < |Hex(n, lower)| ==> IsHex(Hex(n, lower)[i])
    decreases n
  {
    hide IsHex, HexDigit, Upper, HexChar, HexValue;
    HexCharReads(n % 16, lower);
    var front := if n < 16 then "" else Hex(n / 16, lower);
    assert Hex(n, lower) == front + [HexChar(n % 16, lower)];
    OneMoreDigit(front, HexChar(n % 16, lower));
    if n < 16 {
      NoDigits();
    } else {
      HexRoundTrip(n / 16, lower);
    }
  }

  lemma OneMoreDigit(s: string, c: char)
    ensures HexValue(UpperCase(s + [c])) == 16 * HexValue(UpperCase(s)) + HexDigit(Upper(c))
  {
    hide HexDigit, Upper;
    var u := UpperCase(s + [c]);
    assert u[..|s|] == UpperCase(s);
  }

  lemma NoDigits()
    ensures HexValue(UpperCase("")) == 0
  {
  }

  /** Six digits are enough for a megabyte. */
  lemma HexIsShort(n: nat, lower: bool)
    requires n <= 1048576
    ensures 1 <= |Hex(n, lower)| <= 6
  {
    assert n / 16 <= 65536 && n / 16 / 16 <= 4096 && n / 16 / 16 / 16 <= 256;
    assert n / 16 / 16 / 16 / 16 <= 16 && n / 16 / 16 / 16 / 16 / 16 <= 1;
    ShorterBy(n, lower);
    ShorterBy(n / 16, lower);
    ShorterBy(n / 16 / 16, lower);
    ShorterBy(n / 16 / 16 / 16, lower);
    ShorterBy(n / 16 / 16 / 16 / 16, lower);
    ShorterBy(n / 16 / 16 / 16 / 16 / 16, lower);
  }

  lemma ShorterBy(n: nat, lower: bool)
    ensures |Hex(n, lower)| == if n < 16 then 1 else |Hex(n / 16, lower)| + 1
  {
  }

  /** The chunks of a body sent in `parts`, and the last one. */
  function Written(parts: seq<string>, lower: bool): seq<Chunk> {
    if parts == [] then [Chunk("0", "", "")]
    else [Chunk(Hex(|parts[0]|, lower), "", parts[0])] + Written(parts[1..], lower)
  }

  lemma WrittenLine(data: string, lower: bool)
    requires |data| <= 1048576
    ensures ValidLine(Chunk(Hex(|data|, lower), "", data))
  {
    var c := Chunk(Hex(|data|, lower), "", data);
    HexRoundTrip(|data|, lower);
    HexIsShort(|data|, lower);
    var line := c.Line() + CRLF;
    forall j | 0 <= j ensures Occurs(line, CRLF, j) <==> j == |c.Line()| {
      BreakAt(line, j);
      if j < |c.size| {
        assert line[j] == c.size[j];
      }
    }
    FindAt(line, CRLF, |c.Line()|);
  }

  /** A body written so is one that ReadChunks reads, part by part. */
  lemma {:induction false} WrittenBody(parts: seq<string>, lower: bool)
    requires forall i :: 0 <= i < |parts| ==> 1 <= |parts[i]| <= 1048576
    ensures |Written(parts, lower)| == |parts| + 1 && ValidBody(Written(parts, lower))
    ensures forall i :: 0 <= i < |parts| ==> Written(parts, lower)[i].data == parts[i]
    decreases |parts|
  {
    hide ValidLine;
    var cs := Written(parts, lower);
    if parts == [] {
      WrittenLine("", lower);
      assert Hex(0, lower) == "0";
    } else {
      WrittenBody(parts[1..], lower);
      WrittenLine(parts[0], lower);
      var rest := Written(parts[1..], lower);
      assert forall i :: 0 < i < |cs| ==> cs[i] == rest[i - 1];
    }
  }

  /** A chunk whose size line is cut by a receive, with all of it on its way: the reader
      gives up. */
  method CutLineExample() returns (whole: int, data: string, cut: int)
    ensures whole == 1 && data == "x" && cut == -1
  {
    hide Find, HexValue, ValidLine, Prefix, Flow, IsHex, UpperCase;
    var c := Chunk("1", "", "x");
    PrefixOfTwo("1\r\nx", "");
    PrefixOfTwo("1\r", "\nx");
    ExampleIsValid(c);
    var net := [Data("1\r\nx")];
    var one := new SocketHandler("", net);
    ReadyOf(one, "1\r\nx");
    whole, data := ReadChunk(one, "", c);
    net := [Data("1\r"), Data("\nx")];
    var two := new SocketHandler("", net);
    ReadyOf(two, "1\r\nx");
    var rest;
    cut, rest := ReadChunk(two, "", c);
  }

  lemma ExampleIsValid(c: Chunk)
    requires c == Chunk("1", "", "x")
    ensures ValidLine(c) && c.Line() + CRLF + c.data == "1\r\nx"
  {
    assert c.Line() + CRLF == "1\r\n";
    BreakAt("1\r\n", 0);
    BreakAt("1\r\n", 1);
    FindAt("1\r\n", CRLF, 1);
    assert "1"[0] == HEX[1];
    assert UpperCase("1") == "1" && "1"[..0] == "";
    assert HexValue("1") == 16 * HexValue("") + 1;
  }
}
