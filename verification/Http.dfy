/** Framing on top of the receive buffer: headers and chunked bodies. */
module Http {
  import opened Socket

  /** MAXHTTPHEADERLENGTH */
  const MAX_HEADER: nat := 65536

  /** What an unsigned int holds. */
  const UINT: int := 0x1_0000_0000

  // ----- searching

  predicate Occurs(s: string, pat: string, i: int) {
    0 <= i && i + |pat| <= |s| && s[i..i + |pat|] == pat
  }

  function FindFrom(s: string, pat: string, i: nat): (r: int)
    requires i <= |s| + 1
    ensures -1 <= r
    ensures r >= 0 ==> i <= r && Occurs(s, pat, r) && forall j :: i <= j < r ==> !Occurs(s, pat, j)
    ensures r == -1 ==> forall j :: i <= j ==> !Occurs(s, pat, j)
    decreases |s| + 1 - i
  {
    if i + |pat| > |s| then -1
    else if Occurs(s, pat, i) then i
    else FindFrom(s, pat, i + 1)
  }

  /** string::find; -1 for npos. */
  function Find(s: string, pat: string): (r: int)
    ensures -1 <= r
    ensures r >= 0 ==> Occurs(s, pat, r) && forall j :: 0 <= j < r ==> !Occurs(s, pat, j)
    ensures r == -1 ==> forall j :: 0 <= j ==> !Occurs(s, pat, j)
  {
    FindFrom(s, pat, 0)
  }

  /** A prefix of `s` holds the first occurrence exactly when it reaches to its end. */
  lemma FindInPrefix(s: string, n: nat, pat: string)
    requires n <= |s|
    ensures var i := Find(s, pat);
            Find(s[..n], pat) == if i >= 0 && i + |pat| <= n then i else -1
  {
    assert forall j :: Occurs(s[..n], pat, j) <==> Occurs(s, pat, j) && j + |pat| <= n;
  }

  predicate OneOf(c: char, chars: string) { c in chars }

  /** find_first_not_of; |s| for npos. */
  function FirstNotOf(s: string, chars: string): (i: nat)
    ensures i <= |s|
    ensures forall j :: 0 <= j < i ==> OneOf(s[j], chars)
    ensures i < |s| ==> !OneOf(s[i], chars)
  {
    if s == [] || !OneOf(s[0], chars) then 0 else 1 + FirstNotOf(s[1..], chars)
  }

  lemma FirstNotOfUnique(s: string, chars: string, i: nat)
    requires i <= |s| && (forall j :: 0 <= j < i ==> OneOf(s[j], chars)) && (i < |s| ==> !OneOf(s[i], chars))
    ensures i == FirstNotOf(s, chars)
  {
    hide FirstNotOf, OneOf;
  }

  // ----- where receives begin and end

  /** One of the receives still to come ends `k` bytes from here. */
  ghost predicate BoundaryIn(net: seq<Event>, k: int) {
    net != [] && net[0].Data? && (k == |net[0].bytes| || BoundaryIn(net[1..], k - |net[0].bytes|))
  }

  ghost predicate BoundaryAt(buffered: string, net: seq<Event>, k: int) {
    if buffered == "" then BoundaryIn(net, k) else k == |buffered| || BoundaryIn(net, k - |buffered|)
  }

  lemma {:induction false} BoundaryIsAhead(net: seq<Event>, k: int)
    requires Deliverable(net) && BoundaryIn(net, k)
    ensures k > 0
    decreases |net|
  {
    if k != |net[0].bytes| {
      BoundaryIsAhead(net[1..], k - |net[0].bytes|);
    }
  }

  /** The receives to come are those of `then`, `d` bytes further on. */
  ghost predicate Further(buffered: string, net: seq<Event>, thenBuffered: string, thenNet: seq<Event>, d: int) {
    forall k :: k > 0 ==> (BoundaryAt(buffered, net, k) <==> BoundaryAt(thenBuffered, thenNet, d + k))
  }

  lemma FurtherTwice(b: string, n: seq<Event>, b1: string, n1: seq<Event>, b2: string, n2: seq<Event>, d: nat, e: nat)
    requires Further(b, n, b1, n1, d) && Further(b1, n1, b2, n2, e)
    ensures Further(b, n, b2, n2, d + e)
  {
    forall k | k > 0 ensures BoundaryAt(b, n, k) <==> BoundaryAt(b2, n2, d + e + k) {
      assert BoundaryAt(b1, n1, d + k) <==> BoundaryAt(b2, n2, e + (d + k));
    }
  }

  /** `c` bytes of `ready` are consumed, no more and no less, and the receives to come are
      where they were. */
  ghost predicate ConsumedTo(sock: SocketHandler, ready: string, buffered: string, net: seq<Event>, c: int)
    reads sock
  {
    && Deliverable(sock.net) && 0 <= c <= |ready| && sock.Ready() == ready[c..]
    && Further(sock.recvBuf, sock.net, buffered, net, c)
  }

  /** A peek: the buffer, filled by a receive when it is empty, joins `temp` and stays. The
      ghost arguments follow ConsumedTo. */
  method Peek(sock: SocketHandler, temp: string, ghost ready: string, ghost buffered: string, ghost net: seq<Event>, ghost c: nat)
    returns (read: int, r: string)
    requires ConsumedTo(sock, ready, buffered, net, c)
    modifies sock
    ensures Deliverable(sock.net)
    ensures read > 0 <==> c < |ready|
    ensures read > 0 ==>
              && ConsumedTo(sock, ready, buffered, net, c)
              && r == temp + sock.recvBuf && read == |sock.recvBuf| && c + read <= |ready|
              && sock.recvBuf == ready[c..c + read]
              && (if old(sock.recvBuf) == "" then |sock.net| < |old(sock.net)|
                  else sock.net == old(sock.net) && sock.recvBuf == old(sock.recvBuf))
    ensures read <= 0 ==> r == temp
    ensures |old(sock.recvBuf)| <= MAXRECV ==> |sock.recvBuf| <= MAXRECV
  {
    read, r := sock.Recv(temp, false);
    if read > 0 {
      FurtherTwice(sock.recvBuf, sock.net, old(sock.recvBuf), old(sock.net), buffered, net, 0, c);
      assert sock.Ready() == ready[c..];
      assert sock.Ready()[..read] == sock.recvBuf;
    }
  }

  /** Bytes of the buffer are consumed onto `temp`. */
  method Take(sock: SocketHandler, temp: string, n: nat, ghost ready: string, ghost buffered: string, ghost net: seq<Event>, ghost c: nat)
    returns (r: string)
    requires n <= |sock.recvBuf| && ConsumedTo(sock, ready, buffered, net, c)
    modifies sock
    ensures ConsumedTo(sock, ready, buffered, net, c + n) && Deliverable(sock.net)
    ensures sock.net == old(sock.net) && sock.recvBuf == old(sock.recvBuf)[n..]
    ensures r == temp + old(sock.recvBuf)[..n]
  {
    var ok;
    ok, r := sock.RecvLength(temp, n);
    if n > 0 {
      FurtherTwice(sock.recvBuf, sock.net, old(sock.recvBuf), old(sock.net), buffered, net, n, c);
    }
    assert old(sock.Ready())[n..] == sock.Ready();
    assert ready[c..][n..] == ready[c + n..];
  }

  // ----- reading a header

  const BLANKS: string := "\r\n\t "
  const HEADER_END: string := "\r\n\r\n"

  /** The number of blanks a text begins with. */
  ghost function Blanks(text: string): (w: nat)
    ensures w <= |text|
  {
    FirstNotOf(text, BLANKS)
  }

  predicate IsBlank(c: char) { c == '\r' || c == '\n' || c == '\t' || c == ' ' }

  lemma BlankIsOneOf(c: char)
    ensures OneOf(c, BLANKS) <==> IsBlank(c)
  {
    assert BLANKS[0] == '\r' && BLANKS[1] == '\n' && BLANKS[2] == '\t' && BLANKS[3] == ' ';
  }

  /** Blanks are line breaks, tabs and spaces. */
  lemma BlanksMeaning(text: string)
    ensures forall i :: 0 <= i < Blanks(text) ==> IsBlank(text[i])
    ensures Blanks(text) < |text| ==> !IsBlank(text[Blanks(text)])
  {
    hide OneOf;
    forall i | 0 <= i <= Blanks(text) && i < |text| ensures i == Blanks(text) <==> !IsBlank(text[i]) {
      BlankIsOneOf(text[i]);
    }
  }

  /** What a buffer at offset `c` shows of the blanks. */
  method SeeBlanks(tempheader: string, ghost ready: string, ghost c: nat) returns (position: nat)
    requires c <= Blanks(ready) && c + |tempheader| <= |ready| && tempheader == ready[c..c + |tempheader|]
    ensures position == if Blanks(ready) - c < |tempheader| then Blanks(ready) - c else |tempheader|
  {
    BlanksInBuffer(ready, c, tempheader, BLANKS);
    position := FirstNotOf(tempheader, BLANKS);
  }

  /** The first loop of ReadHeader: blanks are consumed, the first receive with something
      else is left in the buffer and in `tempheader`. */
  method SkipBlanks(sock: SocketHandler) returns (ok: bool, tempheader: string, received: int)
    requires Deliverable(sock.net) && |sock.recvBuf| <= MAXRECV
    modifies sock
    ensures Deliverable(sock.net) && |sock.recvBuf| <= MAXRECV
    ensures var ready := old(sock.Ready());
            var w := Blanks(ready);
            && (w < |ready| && w <= MAX_HEADER ==> ok)
            && (ok ==>
                  && tempheader == sock.recvBuf != "" && w < |ready| && received <= w + |tempheader|
                  && ConsumedTo(sock, ready, old(sock.recvBuf), old(sock.net), w))
  {
    hide ConsumedTo, Blanks, Deliverable, Prefix, Flow;
    ok, tempheader, received := false, "", 0;
    ghost var ready, buffered, net := sock.Ready(), sock.recvBuf, sock.net;
    ghost var w := Blanks(ready);
    NothingConsumed(sock);
    while true
      invariant Deliverable(sock.net) && |sock.recvBuf| <= MAXRECV && tempheader == "" && 0 <= received <= w
      invariant ConsumedTo(sock, ready, buffered, net, received)
      decreases |sock.net|, |sock.recvBuf|
    {
      var read;
      read, tempheader := Peek(sock, tempheader, ready, buffered, net, received);
      if read < 1 {
        return;
      }
      assert tempheader == sock.recvBuf;
      var position := SeeBlanks(tempheader, ready, received);
      received := received + read;
      if position < |tempheader| {
        tempheader := StripBlanks(sock, tempheader, position, ready, buffered, net, w);
        ok := true;
        return;
      }
      if received > MAX_HEADER {
        return;
      }
      var _ := Take(sock, tempheader, read, ready, buffered, net, received - read);
      tempheader := "";
    }
  }

  /** The blanks before the header leave the buffer. */
  method StripBlanks(sock: SocketHandler, tempheader: string, position: nat,
                     ghost ready: string, ghost buffered: string, ghost net: seq<Event>, ghost w: nat)
    returns (rest: string)
    requires position < |tempheader| && tempheader == sock.recvBuf && position <= w
    requires Deliverable(sock.net) && ConsumedTo(sock, ready, buffered, net, w - position)
    modifies sock
    ensures Deliverable(sock.net) && ConsumedTo(sock, ready, buffered, net, w)
    ensures rest == sock.recvBuf == tempheader[position..]
  {
    hide ConsumedTo;
    rest := tempheader;
    if position > 0 {
      rest := tempheader[position..];
      var _ := Take(sock, "", position, ready, buffered, net, w - position);
    }
  }

  lemma NothingConsumed(sock: SocketHandler)
    requires Deliverable(sock.net)
    ensures ConsumedTo(sock, sock.Ready(), sock.recvBuf, sock.net, 0)
  {
  }

  /** What is left of the blanks, seen in a buffer at offset `c`. */
  lemma BlanksInBuffer(ready: string, c: nat, buffer: string, chars: string)
    requires c <= FirstNotOf(ready, chars) && c + |buffer| <= |ready| && buffer == ready[c..c + |buffer|]
    ensures var w := FirstNotOf(ready, chars);
            FirstNotOf(buffer, chars) == if w - c < |buffer| then w - c else |buffer|
  {
    hide FirstNotOf, OneOf;
    var w, n := FirstNotOf(ready, chars), |buffer|;
    ByteOfPart(ready, c, buffer);
    BlanksOfPart(ready, c, buffer, chars, if w - c < n then w - c else n);
  }

  lemma ByteOfPart(s: string, c: nat, part: string)
    requires c + |part| <= |s| && part == s[c..c + |part|]
    ensures forall j :: 0 <= j < |part| ==> part[j] == s[c + j]
  {
  }

  lemma BlanksOfPart(s: string, c: nat, part: string, chars: string, i: nat)
    requires c + |part| <= |s| && forall j :: 0 <= j < |part| ==> part[j] == s[c + j]
    requires i <= |part| && c + i <= FirstNotOf(s, chars) && (i < |part| ==> c + i == FirstNotOf(s, chars))
    ensures FirstNotOf(part, chars) == i
  {
    hide FirstNotOf, OneOf;
    forall j | 0 <= j < i ensures OneOf(part[j], chars) {
      assert part[j] == s[c + j];
    }
    FirstNotOfUnique(part, chars, i);
  }

  /** Where the header of `text` ends: the index of its empty line. */
  function HeaderEnd(text: string): (e: int)
    ensures -1 <= e
  {
    Find(text, HEADER_END)
  }

  predicate EmptyLineAt(text: string, j: int) {
    0 <= j && j + 4 <= |text| && text[j] == '\r' && text[j + 1] == '\n' && text[j + 2] == '\r' && text[j + 3] == '\n'
  }

  /** A header ends with the first line break that another one follows. */
  lemma HeaderEndMeaning(text: string)
    ensures var e := HeaderEnd(text);
            && (e >= 0 ==> EmptyLineAt(text, e) && forall j :: 0 <= j < e ==> !EmptyLineAt(text, j))
            && (e == -1 ==> forall j :: 0 <= j ==> !EmptyLineAt(text, j))
  {
    hide FindFrom;
    forall j ensures EmptyLineAt(text, j) <==> Occurs(text, HEADER_END, j) {
      if 0 <= j && j + 4 <= |text| {
        assert text[j..j + 4] == [text[j], text[j + 1], text[j + 2], text[j + 3]];
      }
    }
  }

  /** `text` begins with a header that ends in an empty line and has no bare one, and with
      the `w` blanks before it is within the size limit, however it is cut: the limit counts
      the first receive twice, and no receive is longer than MAXRECV. */
  ghost predicate Framed(text: string, w: nat) {
    var e := HeaderEnd(text);
    e >= 0 && Find(text[..e + 4], "\n\n") == -1 && w + FirstReceive(e) + e + 3 <= 65536 && |text| < UINT - 1
  }

  /** The most the first receive of a header that ends at `e` can hold and not end it. */
  function FirstReceive(e: int): int {
    if e + 3 <= MAXRECV then e + 3 else MAXRECV
  }

  /** The state of the second loop: `headerT` is what was consumed of `text`, `tempheader`
      what was seen. */
  ghost predicate Reading(sock: SocketHandler, ready: string, buffered: string, net: seq<Event>, w: nat,
                          headerT: string, tempheader: string)
    reads sock
  {
    && w <= |ready| && ConsumedTo(sock, ready, buffered, net, w + |headerT|)
    && |headerT| + |sock.recvBuf| <= |ready| - w && sock.recvBuf != ""
    && headerT == ready[w..][..|headerT|]
    && tempheader == ready[w..][..|headerT| + |sock.recvBuf|]
    && (headerT != "" ==> BoundaryAt(buffered, net, w + |headerT|))
  }

  lemma BufferEndIsBoundary(sock: SocketHandler, ready: string, buffered: string, net: seq<Event>, c: nat)
    requires ConsumedTo(sock, ready, buffered, net, c) && sock.recvBuf != ""
    ensures BoundaryAt(buffered, net, c + |sock.recvBuf|)
    ensures c + |sock.recvBuf| <= |ready| && sock.recvBuf == ready[c..c + |sock.recvBuf|]
  {
    assert BoundaryAt(sock.recvBuf, sock.net, |sock.recvBuf|);
    assert sock.Ready()[..|sock.recvBuf|] == sock.recvBuf;
  }

  lemma PrefixGrows(ready: string, w: nat, n: nat, m: nat)
    requires w + n + m <= |ready|
    ensures ready[w..][..n + m] == ready[w..][..n] + ready[w + n..w + n + m]
  {
  }

  /** The whole buffer, seen already, is consumed. */
  method ConsumeSeen(sock: SocketHandler, headerT: string, tempheader: string,
                     ghost ready: string, ghost buffered: string, ghost net: seq<Event>, ghost w: nat)
    returns (header: string)
    requires Reading(sock, ready, buffered, net, w, headerT, tempheader)
    modifies sock
    ensures header == tempheader && sock.recvBuf == "" && sock.net == old(sock.net)
    ensures ConsumedTo(sock, ready, buffered, net, w + |header|) && BoundaryAt(buffered, net, w + |header|)
  {
    hide ConsumedTo, BoundaryAt;
    BufferEndIsBoundary(sock, ready, buffered, net, w + |headerT|);
    PrefixGrows(ready, w, |headerT|, |sock.recvBuf|);
    header := Take(sock, headerT, |sock.recvBuf|, ready, buffered, net, w + |headerT|);
    assert header == tempheader;
  }

  /** The next receive joins what was seen. */
  method SeeNext(sock: SocketHandler, headerT: string,
                 ghost ready: string, ghost buffered: string, ghost net: seq<Event>, ghost w: nat)
    returns (read: int, temp: string)
    requires w <= |ready| && |headerT| <= |ready| - w && headerT == ready[w..][..|headerT|] && sock.recvBuf == ""
    requires ConsumedTo(sock, ready, buffered, net, w + |headerT|) && BoundaryAt(buffered, net, w + |headerT|)
    modifies sock
    ensures Deliverable(sock.net)
    ensures read > 0 <==> |headerT| < |ready| - w
    ensures read > 0 ==>
              && Reading(sock, ready, buffered, net, w, headerT, temp) && read == |sock.recvBuf|
              && |sock.net| < |old(sock.net)|
  {
    hide ConsumedTo, BoundaryAt;
    read, temp := Peek(sock, headerT, ready, buffered, net, w + |headerT|);
    if read > 0 {
      PrefixGrows(ready, w, |headerT|, read);
    }
  }

  lemma ReadingFacts(sock: SocketHandler, ready: string, buffered: string, net: seq<Event>, w: nat,
                     headerT: string, tempheader: string)
    requires Reading(sock, ready, buffered, net, w, headerT, tempheader)
    ensures Deliverable(sock.net) && sock.recvBuf != "" && |headerT| + |sock.recvBuf| <= |ready| - w
    ensures headerT == ready[w..][..|headerT|] && tempheader == ready[w..][..|headerT| + |sock.recvBuf|]
  {
  }

  /** What a prefix of the text shows of its end. */
  lemma EndInPrefix(text: string, w: nat, n: nat)
    requires n <= |text|
    ensures Find(text[..n], HEADER_END) == if HeaderEnd(text) >= 0 && HeaderEnd(text) + 4 <= n then HeaderEnd(text) else -1
    ensures Framed(text, w) && n < HeaderEnd(text) + 4 ==> Find(text[..n], "\n\n") == -1
    ensures Framed(text, w) ==> 0 <= HeaderEnd(text) && HeaderEnd(text) + 4 <= |text|
  {
    FindInPrefix(text, n, HEADER_END);
    if Framed(text, w) && n < HeaderEnd(text) + 4 {
      var e := HeaderEnd(text);
      FindInPrefix(text[..e + 4], n, "\n\n");
      assert text[..e + 4][..n] == text[..n];
    }
  }

  /** find_last_of("\r\n") == size() - 1 */
  predicate EndsInLineBreak(s: string) { s == "" || s[|s| - 1] == '\r' || s[|s| - 1] == '\n' }

  datatype Ended = Found(position: int) | FoundBare(position: int) | GaveUp(ok: bool)

  /** The second loop of ReadHeader: receives until the empty line is in `tempheader`. */
  method SeekHeaderEnd(sock: SocketHandler, received0: int, first: string,
                       ghost ready: string, ghost buffered: string, ghost net: seq<Event>, ghost w: nat)
    returns (ended: Ended, headerT: string)
    requires w <= |ready| && Reading(sock, ready, buffered, net, w, "", first) && received0 <= w + |first|
    requires |first| <= MAXRECV
    modifies sock
    ensures Deliverable(sock.net)
    ensures Framed(ready[w..], w) ==>
              && ended == Found(HeaderEnd(ready[w..]))
              && |headerT| <= HeaderEnd(ready[w..]) + 3 < |headerT| + |sock.recvBuf| <= |ready| - w
              && Reading(sock, ready, buffered, net, w, headerT, ready[w..][..|headerT| + |sock.recvBuf|])
  {
    hide Reading, ConsumedTo, HeaderEnd, Framed, BoundaryAt, Deliverable, Find, EndsInLineBreak;
    headerT := "";
    ghost var text := ready[w..];
    var tempheader, received, poscount, read := first, received0, 0, |first|;
    ReadingFacts(sock, ready, buffered, net, w, "", first);
    EndInPrefix(text, w, 0);
    while true
      invariant Reading(sock, ready, buffered, net, w, headerT, tempheader)
      invariant poscount == |headerT| && read == |sock.recvBuf| > 0 && poscount + read <= |text|
      invariant tempheader == text[..poscount + read] && headerT == text[..poscount]
      invariant received <= w + |first| + poscount && (poscount > 0 ==> |first| <= poscount)
      invariant poscount == 0 ==> read == |first|
      invariant Framed(text, w) ==> poscount <= HeaderEnd(text) + 3
      decreases |sock.net|
    {
      ReadingFacts(sock, ready, buffered, net, w, headerT, tempheader);
      EndInPrefix(text, w, poscount + read);
      var position := Find(tempheader, HEADER_END);
      if position >= 0 {
        ended := Found(position);
        return;
      }
      position := Find(tempheader, "\n\n");
      if position >= 0 {
        ended := FoundBare(position);
        return;
      }
      headerT := ConsumeSeen(sock, headerT, tempheader, ready, buffered, net, w);
      poscount := poscount + read;
      received := received + read;
      if received > MAX_HEADER {
        SizeOfFramed(text, w);
        NetOf(sock, ready, buffered, net, w + |headerT|);
        ended := GaveUp(false);
        return;
      }
      read, tempheader := SeeNext(sock, headerT, ready, buffered, net, w);
      if read < 1 {
        ended := GaveUp(read == 0 && EndsInLineBreak(headerT));
        return;
      }
      ReadingFacts(sock, ready, buffered, net, w, headerT, tempheader);
    }
  }

  lemma SizeOfFramed(text: string, w: nat)
    ensures Framed(text, w) ==> w + FirstReceive(HeaderEnd(text)) + HeaderEnd(text) + 3 <= MAX_HEADER
  {
  }

  lemma NetOf(sock: SocketHandler, ready: string, buffered: string, net: seq<Event>, c: int)
    requires ConsumedTo(sock, ready, buffered, net, c)
    ensures Deliverable(sock.net)
  {
  }

  /** The length ReadHeader asks for when the empty line was found at `position` with
      `poscount` bytes consumed, as an unsigned int. */
  function LastLength(position: int, poscount: int): nat {
    (position - poscount + 2) % UINT
  }

  /** A receive that ends right before the header's last byte makes that length -1, which is
      more than any stream has; otherwise it is what is left of the header. */
  lemma LastLengthIff(sock: SocketHandler, ready: string, buffered: string, net: seq<Event>, w: nat, headerT: string)
    requires w <= |ready| && Framed(ready[w..], w)
    requires |headerT| <= HeaderEnd(ready[w..]) + 3 < |headerT| + |sock.recvBuf| <= |ready| - w
    requires Reading(sock, ready, buffered, net, w, headerT, ready[w..][..|headerT| + |sock.recvBuf|])
    ensures BoundaryAt(buffered, net, w + HeaderEnd(ready[w..]) + 3) <==> |headerT| == HeaderEnd(ready[w..]) + 3
    ensures LastLength(HeaderEnd(ready[w..]), |headerT|) == UINT - 1 <==> |headerT| == HeaderEnd(ready[w..]) + 3
  {
    hide Framed, HeaderEnd;
    var e := HeaderEnd(ready[w..]);
    EndInPrefix(ready[w..], w, 0);
    TextIsShort(ready[w..], w);
    if |headerT| < e + 3 && BoundaryAt(buffered, net, w + e + 3) {
      var k := e + 3 - |headerT|;
      assert BoundaryAt(sock.recvBuf, sock.net, k);
      if BoundaryIn(sock.net, k - |sock.recvBuf|) {
        BoundaryIsAhead(sock.net, k - |sock.recvBuf|);
      }
    }
  }

  /** ReadHeader. For a stream that begins with blanks and a header within the limits, the
      header comes out the same for every way the stream is cut into receives, and the stream
      is left right behind the header's end: if and only if no receive ends right before the
      header's last byte. */
  method ReadHeader(sock: SocketHandler) returns (ok: bool, headerT: string)
    requires Deliverable(sock.net) && |sock.recvBuf| <= MAXRECV
    modifies sock
    ensures Deliverable(sock.net)
    ensures var ready := old(sock.Ready());
            var w := Blanks(ready);
            w < |ready| && Framed(ready[w..], w) ==>
              var e := HeaderEnd(ready[w..]);
              && (ok <==> !BoundaryAt(old(sock.recvBuf), old(sock.net), w + e + 3))
              && (ok ==> headerT == ready[w..][..e + 2] && sock.Ready() == ready[w + e + 4..])
  {
    hide Reading, Framed, HeaderEnd, BoundaryAt, Deliverable, Blanks, Further, ConsumedTo, Prefix, Flow, Find, EndsInLineBreak;
    ghost var ready, buffered, net := sock.Ready(), sock.recvBuf, sock.net;
    ghost var w := Blanks(ready);
    headerT := "";
    var tempheader, received;
    ok, tempheader, received := SkipBlanks(sock);
    if !ok {
      SizeOfFramed(ready[w..], w);
      return;
    }
    StartReading(sock, ready, buffered, net, w);
    var ended;
    ended, headerT := SeekHeaderEnd(sock, received, tempheader, ready, buffered, net, w);
    match ended
    case GaveUp(result) =>
      ok := result;
    case FoundBare(position) =>
      ok, headerT := sock.RecvLength(headerT, LastLength(position, |headerT|));
    case Found(position) =>
      if Framed(ready[w..], w) {
        LastLengthIff(sock, ready, buffered, net, w, headerT);
        LastPiece(sock, ready, buffered, net, w, headerT);
      }
      ok, headerT := ReadLastPiece(sock, headerT, LastLength(position, |headerT|));
  }

  /** The rest of the header, and its empty line. */
  method ReadLastPiece(sock: SocketHandler, before: string, n: nat) returns (ok: bool, headerT: string)
    requires Deliverable(sock.net)
    modifies sock
    ensures Deliverable(sock.net)
    ensures n > |old(sock.Ready())| ==> !ok
    ensures n + 2 <= |old(sock.recvBuf)| ==>
              && ok && headerT == before + old(sock.recvBuf)[..n]
              && sock.Ready() == old(sock.recvBuf)[n..][2..] + Prefix(old(sock.net))
  {
    hide Deliverable, Prefix, Flow;
    ok, headerT := sock.RecvLength(before, n);
    if ok {
      var rest;
      ok, rest := sock.RecvLength("", 2);
    }
  }

  lemma StartReading(sock: SocketHandler, ready: string, buffered: string, net: seq<Event>, w: nat)
    requires w <= |ready| && ConsumedTo(sock, ready, buffered, net, w) && sock.recvBuf != ""
    ensures Reading(sock, ready, buffered, net, w, "", sock.recvBuf)
  {
    assert sock.Ready()[..|sock.recvBuf|] == sock.recvBuf;
  }

  /** The last two reads of ReadHeader, when nothing is in their way. */
  lemma LastPiece(sock: SocketHandler, ready: string, buffered: string, net: seq<Event>, w: nat, headerT: string)
    requires w <= |ready| && Framed(ready[w..], w)
    requires |headerT| <= HeaderEnd(ready[w..]) + 3 < |headerT| + |sock.recvBuf| <= |ready| - w
    requires Reading(sock, ready, buffered, net, w, headerT, ready[w..][..|headerT| + |sock.recvBuf|])
    ensures var e, c := HeaderEnd(ready[w..]), |headerT|;
            if c == e + 3 then LastLength(e, c) > |sock.Ready()|
            else
              && LastLength(e, c) == e + 2 - c && LastLength(e, c) + 2 <= |sock.recvBuf|
              && headerT + sock.recvBuf[..e + 2 - c] == ready[w..][..e + 2]
              && sock.recvBuf[e + 2 - c..][2..] + Prefix(sock.net) == ready[w + e + 4..]
  {
    hide Framed, HeaderEnd, Find, Further, BoundaryAt, Prefix;
    var e, c := HeaderEnd(ready[w..]), |headerT|;
    EndInPrefix(ready[w..], w, 0);
    TextIsShort(ready[w..], w);
    if c < e + 3 {
      assert sock.recvBuf == ready[w + c..w + c + |sock.recvBuf|] by {
        assert sock.Ready()[..|sock.recvBuf|] == sock.recvBuf;
      }
      assert sock.recvBuf[e + 2 - c..][2..] + Prefix(sock.net) == sock.Ready()[e + 4 - c..];
      assert sock.Ready()[e + 4 - c..] == ready[w + c..][e + 4 - c..];
    }
  }

  lemma TextIsShort(text: string, w: nat)
    requires Framed(text, w)
    ensures |text| < UINT - 1
  {
  }

  lemma FindAt(s: string, pat: string, i: nat)
    requires Occurs(s, pat, i) && forall j :: 0 <= j < i ==> !Occurs(s, pat, j)
    ensures Find(s, pat) == i
  {
  }

  lemma FindNone(s: string, pat: string)
    requires forall j :: 0 <= j ==> !Occurs(s, pat, j)
    ensures Find(s, pat) == -1
  {
  }

  lemma ReadyOf(sock: SocketHandler, text: string)
    requires sock.recvBuf == "" && Prefix(sock.net) == text
    ensures sock.Ready() == text
  {
    hide Prefix;
  }

  lemma ExampleIsFramed()
    ensures Blanks("A\r\n\r\n") == 0 && HeaderEnd("A\r\n\r\n") == 1 && Framed("A\r\n\r\n", 0)
  {
    var text := "A\r\n\r\n";
    assert !OneOf(text[0], BLANKS);
    assert text[1..5] == HEADER_END;
    FindAt(text, HEADER_END, 1);
    forall j | 0 <= j ensures !Occurs(text[..5], "\n\n", j) {
      if j + 2 <= 5 {
        assert text[..5][j..j + 2] == [text[j], text[j + 1]];
      }
    }
    FindNone(text[..5], "\n\n");
  }

  /** The smallest header, in one receive and cut before its last byte: only the first is
      read. */
  method CutHeaderExample() returns (whole: bool, header: string, cut: bool)
    ensures whole && header == "A\r\n" && !cut
  {
    hide Find, HeaderEnd, Framed, Blanks, Prefix;
    var text := "A\r\n\r\n";
    ExampleIsFramed();
    assert text[0..] == text && text[..3] == "A\r\n";
    PrefixOfTwo(text, "");
    PrefixOfTwo("A\r\n\r", "\n");
    var net := [Data(text)];
    assert net[1..] == [];
    var one := new SocketHandler("", net);
    assert !BoundaryIn(net, 4);
    ReadyOf(one, text);
    whole, header := ReadHeader(one);
    net := [Data("A\r\n\r"), Data("\n")];
    var two := new SocketHandler("", net);
    ReadyOf(two, text);
    var rest;
    cut, rest := ReadHeader(two);
  }
}
