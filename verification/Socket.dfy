/** The receive side of a socket: one buffer, read by peeking or by consuming. */
module Socket {

  /** MAXRECV */
  const MAXRECV: nat := 14600

  /** What the kernel answers to successive receives: some bytes, end of stream, or an error
      or timeout. */
  datatype Event = Data(bytes: string) | Closed | Failed

  ghost predicate Deliverable(net: seq<Event>) {
    forall i :: 0 <= i < |net| && net[i].Data? ==> 0 < |net[i].bytes| <= MAXRECV
  }

  /** All bytes still to come. */
  function Flow(net: seq<Event>): string {
    if net == [] then "" else (if net[0].Data? then net[0].bytes else "") + Flow(net[1..])
  }

  /** The bytes to come before anything goes wrong. */
  function Prefix(net: seq<Event>): string {
    if net == [] || !net[0].Data? then "" else net[0].bytes + Prefix(net[1..])
  }

  lemma PrefixOfTwo(a: string, b: string)
    ensures Prefix([]) == "" && Prefix([Data(a)]) == a && Prefix([Data(a), Data(b)]) == a + b
  {
    assert [Data(a)][1..] == [] && [Data(b)][1..] == [] && [Data(a), Data(b)][1..] == [Data(b)];
    assert a + "" == a && b + "" == b;
    assert Prefix([Data(b)]) == b + Prefix([Data(b)][1..]);
  }

  /** Where buffer and network stand once `n` bytes are consumed, receiving only when the
      buffer does not hold enough. */
  ghost function After(buffered: string, net: seq<Event>, n: nat): (string, seq<Event>)
    decreases |net|
  {
    if n <= |buffered| then (buffered[n..], net)
    else if net == [] || !net[0].Data? then ("", net)
    else After(net[0].bytes, net[1..], n - |buffered|)
  }

  lemma AfterWithin(buffered: string, net: seq<Event>, n: nat)
    requires n <= |buffered|
    ensures After(buffered, net, n) == (buffered[n..], net)
  {
  }

  /** The whole buffer goes first. */
  lemma AfterBuffer(buffered: string, net: seq<Event>, n: nat)
    requires n > |buffered|
    ensures After(buffered, net, n) == After("", net, n - |buffered|)
  {
  }

  /** Consuming in two steps leads to the same place. */
  lemma {:induction false} AfterTwice(buffered: string, net: seq<Event>, n: nat, m: nat)
    requires n <= |buffered + Prefix(net)|
    ensures var (b, rest) := After(buffered, net, n);
            After(b, rest, m) == After(buffered, net, n + m)
    decreases |net|
  {
    if n > |buffered| {
      AfterTwice(net[0].bytes, net[1..], n - |buffered|, m);
    }
  }

  ghost predicate Splits(whole: string, got: string, rest: string) { whole == got + rest }

  lemma SplitsAll(whole: string)
    ensures Splits(whole, "", whole)
  {
  }

  lemma SplitsNothing(whole: string, got: string, rest: string)
    requires Splits(whole, got, rest)
    ensures whole == got + rest && |whole| == |got| + |rest|
  {
  }

  /** The first `k` bytes of a received buffer join what was got, the others stay in front. */
  lemma SplitsFurther(whole: string, got: string, buffer: string, k: nat, rest: string)
    requires Splits(whole, got, buffer + rest) && k <= |buffer|
    ensures Splits(whole, got + buffer[..k], buffer[k..] + rest)
  {
    assert buffer + rest == buffer[..k] + (buffer[k..] + rest);
  }

  lemma BehindPart(s: string, t: string)
    ensures (s + t)[|s|..] == t && (s + t)[..|s|] == s
    ensures s + "" == s && "" + t == t
  {
  }

  class SocketHandler {
    var recvBuf: string
    var net: seq<Event>

    constructor (buffered: string, net: seq<Event>)
      ensures recvBuf == buffered && this.net == net
    {
      this.recvBuf, this.net := buffered, net;
    }

    /** Everything not yet consumed. */
    ghost function Stream(): string
      reads this
    {
      recvBuf + Flow(net)
    }

    /** What can be consumed before anything goes wrong. */
    ghost function Ready(): string
      reads this
    {
      recvBuf + Prefix(net)
    }

    /** One receive: the bytes and their number, 0 at the end of the stream, -1 on failure. */
    method Receive() returns (count: int, buffer: string)
      requires Deliverable(net)
      modifies `net
      ensures Deliverable(net) && |net| <= |old(net)|
      ensures old(Flow(net)) == buffer + Flow(net)
      ensures old(Prefix(net)) == if count < 1 then "" else buffer + Prefix(net)
      ensures |buffer| == (if count < 1 then 0 else count) <= MAXRECV
      ensures if old(net) == [] then count == -1 && buffer == "" && net == []
              else
                && net == old(net)[1..]
                && match old(net)[0]
                   case Data(bytes) => buffer == bytes && count == |bytes| > 0
                   case Closed => buffer == "" && count == 0
                   case Failed => buffer == "" && count == -1
    {
      if net == [] {
        return -1, "";
      }
      count, buffer := match net[0] case Data(bytes) => (|bytes|) case Closed => 0 case Failed => -1,
                       match net[0] case Data(bytes) => bytes case Closed => "" case Failed => "";
      net := net[1..];
    }

    /** Recv: appends what is buffered, or else what one receive brings, to `sockIn`; without
        `del` the bytes stay in the buffer. */
    method Recv(sockIn: string, del: bool) returns (count: int, r: string)
      requires Deliverable(net)
      modifies this
      ensures Deliverable(net) && |net| <= |old(net)|
      ensures |sockIn| <= |r| && r[..|sockIn|] == sockIn
      // nothing is lost, repeated or reordered: a peek leaves the stream as it is, and what a
      // consuming call hands out is the front of it
      ensures old(Stream()) == (if del then r[|sockIn|..] else "") + Stream()
      ensures count > 0 <==> old(Ready()) != ""
      ensures count > 0 ==>
                && count == |r| - |sockIn| && old(Ready()) == (if del then r[|sockIn|..] else "") + Ready()
                && (if del then recvBuf == "" else r == sockIn + recvBuf && |recvBuf| == count)
                && (if old(recvBuf) != "" then
                      net == old(net) && r == sockIn + old(recvBuf) && (!del ==> recvBuf == old(recvBuf))
                    else
                      && old(net) != [] && old(net)[0].Data? && net == old(net)[1..]
                      && r == sockIn + old(net)[0].bytes && (!del ==> recvBuf == old(net)[0].bytes))
      ensures count <= 0 ==> r == sockIn && recvBuf == old(recvBuf) == "" && -1 <= count
      ensures |old(recvBuf)| <= MAXRECV ==> |recvBuf| <= MAXRECV
    {
      hide Deliverable, Flow, Prefix;
      if |recvBuf| > 0 {
        r := sockIn + recvBuf;
        BehindPart(sockIn, recvBuf);
        count := |recvBuf|;
        if del {
          recvBuf := "";
        }
        return;
      }
      var buffer;
      count, buffer := ReceiveInto(del);
      r := sockIn;
      BehindPart(sockIn, buffer);
      BehindPart("", Flow(net));
      if count <= 0 {
        return;
      }
      r := r + buffer;
    }

    /** The receive of Recv, for an empty buffer. */
    method ReceiveInto(del: bool) returns (count: int, buffer: string)
      requires Deliverable(net) && recvBuf == ""
      modifies this
      ensures Deliverable(net) && |net| <= |old(net)| && -1 <= count
      ensures recvBuf == (if del then "" else buffer) && |buffer| <= MAXRECV
      ensures old(Flow(net)) == buffer + Flow(net)
      ensures count > 0 <==> old(Prefix(net)) != ""
      ensures if count > 0 then
                && |buffer| == count && old(Prefix(net)) == buffer + Prefix(net)
                && old(net) != [] && old(net)[0].Data? && net == old(net)[1..] && buffer == old(net)[0].bytes
              else buffer == ""
    {
      hide Deliverable, Flow, Prefix;
      count, buffer := Receive();
      if count < 0 {
        return;
      }
      if !del {
        recvBuf := recvBuf + buffer;
        assert recvBuf == buffer;
      }
    }

    /** The loop of RecvLength: `n` bytes from the network, what is too many into the buffer. */
    method ReceiveExactly(n: nat) returns (ok: bool, got: string)
      requires Deliverable(net) && recvBuf == "" && n > 0
      modifies this
      ensures Deliverable(net) && |net| <= |old(net)|
      ensures old(Flow(net)) == got + Stream()
      ensures ok <==> n <= |old(Prefix(net))|
      ensures ok ==> |got| == n && old(Prefix(net)) == got + Ready()
      ensures !ok ==> got == old(Prefix(net)) && recvBuf == ""
      ensures ok ==> (recvBuf, net) == old(After("", net, n))
      ensures |recvBuf| <= MAXRECV
    {
      hide Flow, Prefix, Deliverable, Splits;
      ghost var flow, prefix := Flow(net), Prefix(net);
      got := "";
      SplitsAll(flow);
      SplitsAll(prefix);
      while true
        invariant Deliverable(net) && |net| <= |old(net)| && recvBuf == "" && |got| < n
        invariant Splits(flow, got, Flow(net)) && Splits(prefix, got, Prefix(net))
        invariant After("", net, n - |got|) == old(After("", net, n))
        decreases |net|
      {
        var count, buffer := Receive();
        if count < 1 {
          assert buffer + Flow(net) == Flow(net);
          SplitsNothing(flow, got, Flow(net));
          SplitsNothing(prefix, got, "");
          return false, got;
        }
        var needed := if |got| + count >= n then n - |got| else count;
        if |got| + count < n {
          AfterBuffer(buffer, net, n - |got|);
        }
        SplitsFurther(flow, got, buffer, needed, Flow(net));
        SplitsFurther(prefix, got, buffer, needed, Prefix(net));
        got := got + buffer[..needed];
        if |got| == n {
          if |buffer| > needed {
            recvBuf := recvBuf + buffer[needed..];
          }
          assert recvBuf == buffer[needed..];
          SplitsNothing(flow, got, recvBuf + Flow(net));
          SplitsNothing(prefix, got, recvBuf + Prefix(net));
          return true, got;
        }
        assert buffer[needed..] + Flow(net) == Flow(net) && buffer[needed..] + Prefix(net) == Prefix(net);
      }
    }

    /** RecvLength: appends exactly `n` bytes to `sockIn`, receiving as often as it takes. */
    method RecvLength(sockIn: string, n: nat) returns (ok: bool, r: string)
      requires Deliverable(net)
      modifies this
      ensures Deliverable(net) && |net| <= |old(net)|
      ensures |sockIn| <= |r| && r[..|sockIn|] == sockIn
      // also when it fails part way, what it appended and what is left are the stream
      ensures old(Stream()) == r[|sockIn|..] + Stream()
      ensures ok <==> n <= |old(Ready())|
      ensures ok ==> |r| == |sockIn| + n && old(Ready()) == r[|sockIn|..] + Ready()
      ensures !ok ==> r == sockIn + old(Ready()) && recvBuf == ""
      ensures n <= |old(recvBuf)| ==> r == sockIn + old(recvBuf)[..n]
      // a success leaves buffer and network exactly where `n` consumed bytes put them
      ensures ok ==> (recvBuf, net) == old(After(recvBuf, net, n))
      ensures |old(recvBuf)| <= MAXRECV ==> |recvBuf| <= MAXRECV
    {
      hide Deliverable, Flow, Prefix, After;
      if |recvBuf| >= n {
        r := sockIn + recvBuf[..n];
        BehindPart(sockIn, recvBuf[..n]);
        AfterWithin(recvBuf, net, n);
        assert recvBuf == recvBuf[..n] + recvBuf[n..];
        recvBuf := recvBuf[n..];
        return true, r;
      }
      r := sockIn + recvBuf;
      var needed := n - |recvBuf|;
      AfterBuffer(recvBuf, net, n);
      recvBuf := "";
      var got;
      ok, got := ReceiveExactly(needed);
      BehindPart(sockIn, old(recvBuf) + got);
      assert r + got == sockIn + (old(recvBuf) + got);
      r := r + got;
    }
  }
}
