/** The body transfer loop of the proxy: parts read from the server side go to the browser,
    never more than the announced length. */
module Relay {

  /** What one ReadBodyPart gave: a body, the end (0) or a failure (negative). */
  datatype Part = Body(bytes: string) | Ended | Lost

  ghost predicate Parts(parts: seq<Part>) {
    forall i :: 0 <= i < |parts| && parts[i].Body? ==> parts[i].bytes != ""
  }

  function Bytes(p: Part): string { if p.Body? then p.bytes else "" }

  /** All bytes of a list of parts. */
  function Flat(parts: seq<Part>): string {
    if parts == [] then "" else Flat(parts[..|parts| - 1]) + Bytes(parts[|parts| - 1])
  }

  /** What was read with the first `n` parts. */
  function Got(first: string, parts: seq<Part>, n: nat): (g: string)
    requires n <= |parts|
    ensures |first| <= |g|
  {
    first + Flat(parts[..n])
  }

  /** The announced length is reached; one of 0 or less is never. */
  predicate Complete(got: string, reference: int) { 0 < reference <= |got| }

  /** The transfer goes through the first `n` parts: the browser takes what each turn brings,
      the announced length is not reached, and there is another part. */
  ghost predicate GoesOn(first: string, parts: seq<Part>, reference: int, canSend: nat -> bool, n: nat)
    requires n <= |parts|
  {
    forall j :: 0 <= j < n ==> canSend(j) && parts[j].Body? && !Complete(Got(first, parts, j), reference)
  }

  /** How a transfer that came to its turn `n` ends there: 1 is that it goes on. */
  function EndCode(first: string, parts: seq<Part>, reference: int, canSend: nat -> bool, n: nat): int
    requires n <= |parts|
  {
    if !canSend(n) then -10
    else if Complete(Got(first, parts, n), reference) then 0
    else if n == |parts| || parts[n].Lost? then -75
    else if parts[n].Ended? then 0
    else 1
  }

  /** -10 when the browser takes no more, -75 when the server fails before the announced length
      is reached, 0 when it is reached or the server comes to its end. */
  lemma EndCodeMeaning(first: string, parts: seq<Part>, reference: int, canSend: nat -> bool, n: nat)
    requires n <= |parts|
    ensures var code, reached := EndCode(first, parts, reference, canSend, n), 0 < reference <= |Got(first, parts, n)|;
            && (code == -10 <==> !canSend(n))
            && (code == -75 <==> canSend(n) && !reached && (n == |parts| || parts[n].Lost?))
            && (code == 0 <==> canSend(n) && (reached || (n < |parts| && parts[n].Ended?)))
  {
  }

  /** It ends at one turn only. */
  lemma EndsOnce(first: string, parts: seq<Part>, reference: int, canSend: nat -> bool, n: nat, m: nat)
    requires n <= |parts| && m <= |parts|
    requires GoesOn(first, parts, reference, canSend, n) && EndCode(first, parts, reference, canSend, n) != 1
    requires GoesOn(first, parts, reference, canSend, m) && EndCode(first, parts, reference, canSend, m) != 1
    ensures n == m
  {
    hide Got;
    assert n < m ==> canSend(n);
    assert m < n ==> canSend(m);
  }

  lemma GotFirst(first: string, parts: seq<Part>)
    ensures Got(first, parts, 0) == first
  {
    assert parts[..0] == [];
  }

  lemma GotMore(first: string, parts: seq<Part>, n: nat)
    requires n < |parts|
    ensures Got(first, parts, n + 1) == Got(first, parts, n) + Bytes(parts[n])
  {
    assert parts[..n + 1][..n] == parts[..n];
  }

  lemma CutPiece(sent: string, piece: string, reference: int)
    requires |sent| <= reference <= |sent| + |piece|
    ensures (sent + piece)[..reference] == sent + piece[..reference - |sent|]
  {
  }

  class ProxyHandler {
    var transferredBody: int
    var dropBrowser: bool
    var dropServer: bool
    var browserDropped: bool

    constructor ()
      ensures !dropBrowser && !dropServer && !browserDropped
    {
      transferredBody, dropBrowser, dropServer, browserDropped := 0, false, false, false;
    }

    /** The loop of CommunicationHTTP. `first` is the part read before it, `parts` what the
        reads in it give (a failure when they run out), `reference` the announced length (0 or
        less: unknown), `canSend(i)` whether the browser takes what turn i brings. `read` is
        how many of the parts were read. */
    method Transfer(first: string, parts: seq<Part>, reference: int, canSend: nat -> bool)
      returns (code: int, sent: string, read: nat)
      requires first != "" && Parts(parts)
      modifies this
      // where it ends and how
      ensures read <= |parts| && GoesOn(first, parts, reference, canSend, read)
      ensures code == EndCode(first, parts, reference, canSend, read) != 1
      // the browser gets the front of what was read: all of it, but never more than announced;
      // a part it did not take is missing
      ensures sent <= Got(first, parts, read) && (0 < reference ==> |sent| <= reference)
      ensures code != -10 ==>
                |sent| == if 0 < reference < |Got(first, parts, read)| then reference else |Got(first, parts, read)|
      ensures code == -10 ==> sent == if read == 0 then "" else Got(first, parts, read - 1)
      ensures transferredBody == |Got(first, parts, read)|
      // too much costs the server its connection, too little the browser its own
      ensures dropServer == (old(dropServer) || code == -75 || 0 < reference < |Got(first, parts, read)|)
      ensures dropBrowser == (old(dropBrowser) || (code == 0 && |sent| < reference))
      ensures browserDropped == (old(browserDropped) || code == -10)
    {
      hide Got, Flat;
      sent, read := "", 0;
      GotFirst(first, parts);
      var bodyTemp := first;
      var contentLength := |first|;
      transferredBody := contentLength;
      var turn := 0;
      while true
        invariant read <= |parts| && turn >= 0 && bodyTemp != ""
        invariant turn == read && GoesOn(first, parts, reference, canSend, read)
        invariant sent + bodyTemp == Got(first, parts, read)
        invariant sent == if read == 0 then "" else Got(first, parts, read - 1)
        invariant contentLength == |sent| + |bodyTemp| == transferredBody && !Complete(sent, reference)
        invariant dropBrowser == old(dropBrowser) && browserDropped == old(browserDropped) && dropServer == old(dropServer)
        decreases |parts| - read
      {
        ghost var all := Got(first, parts, read);
        if reference > 0 && contentLength > reference {
          CutPiece(sent, bodyTemp, reference);
          bodyTemp := bodyTemp[..|bodyTemp| - (contentLength - reference)];
          contentLength := reference;
          dropServer := true;
        }
        if !canSend(turn) {
          browserDropped := true;
          return -10, sent, read;
        }
        turn := turn + 1;
        sent := sent + bodyTemp;
        if contentLength == reference {
          return 0, sent, read;
        }
        var part := if read < |parts| then parts[read] else Lost;
        if part.Lost? {
          dropServer := true;
          return -75, sent, read;
        }
        if part.Ended? {
          if contentLength < reference {
            dropBrowser := true;
          }
          return 0, sent, read;
        }
        GotMore(first, parts, read);
        bodyTemp := part.bytes;
        contentLength := contentLength + |bodyTemp|;
        transferredBody := contentLength;
        read := read + 1;
      }
    }
  }
}
