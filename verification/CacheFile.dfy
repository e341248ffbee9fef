/** The cache file as the process sees it through its `fstream`, and what of it has left
    the process.

    `data` is what the process would read back. Bytes written since the last flush, seek or
    close may or may not have reached the file when the process dies; `pending` records
    them. */
module CacheFile {

  /** Offset of the longest single seek longSeekpFile makes. */
  const SEEK_STEP: int := 2000000000

  /** What an int holds. */
  const MAX_INT: int := 0x7fff_ffff

  function Zeros(n: nat): (z: string)
    ensures |z| == n
  {
    seq(n, _ => 0 as char)
  }

  /** The file after `d` is written at `off`; a hole reads as zeros. */
  function Overwritten(data: string, off: nat, d: string): string {
    if d == [] then data
    else
      var base := if off <= |data| then data[..off] else data + Zeros(off - |data|);
      base + d + (if off + |d| <= |data| then data[off + |d|..] else [])
  }

  /** A write behind the end leaves a hole of zeros. */
  lemma WrittenBehind(data: string, off: nat, d: string)
    requires |data| <= off && d != ""
    ensures var r := Overwritten(data, off, d);
            && |r| == off + |d| && r[..|data|] == data && r[off..] == d
            && forall i :: |data| <= i < off ==> r[i] as int == 0
  {
  }

  lemma OverwrittenAt(data: string, off: nat, d: string)
    requires off <= |data|
    ensures |Overwritten(data, off, d)| == if off + |d| <= |data| then |data| else off + |d|
    ensures forall i :: 0 <= i < |Overwritten(data, off, d)| ==>
                          Overwritten(data, off, d)[i] == if off <= i < off + |d| then d[i - off] else data[i]
  {
  }

  ghost function WriteSet(off: nat, d: string): set<(int, char)> {
    set i | 0 <= i < |d| :: (off + i, d[i])
  }

  /** A file the system may be left with when the process dies: each durable byte is kept or
      replaced by something written since; whatever is behind them is anything. */
  ghost predicate Survives(durable: string, pending: set<(int, char)>, image: string) {
    && |durable| <= |image|
    && forall i :: 0 <= i < |durable| ==> image[i] == durable[i] || (i, image[i]) in pending
  }

  class File {
    var data: string
    var offset: nat
    var isOpen: bool
    ghost var durable: string
    ghost var pending: set<(int, char)>

    constructor (contents: string)
      ensures data == contents && durable == contents && pending == {} && !isOpen && offset == 0
    {
      data, offset, isOpen := contents, 0, false;
      durable, pending := contents, {};
    }

    method Open()
      modifies this
      ensures isOpen && offset == 0
      ensures data == old(data) && durable == old(durable) && pending == old(pending)
    {
      isOpen, offset := true, 0;
    }

    /** Closing hands every buffered byte over. */
    method Close()
      modifies this
      ensures !isOpen && data == old(data) && durable == data && pending == {}
    {
      isOpen := false;
      durable, pending := data, {};
    }

    /** A seek writes buffered bytes out before it moves. */
    method SeekFromStart(pos: nat)
      requires pos <= MAX_INT
      modifies this`offset, this`durable, this`pending
      ensures offset == pos && durable == data && pending == {}
    {
      offset := pos;
      durable, pending := data, {};
    }

    /** One that does not move writes nothing. */
    method SeekFromHere(delta: nat)
      requires delta <= MAX_INT
      modifies this`offset, this`durable, this`pending
      ensures offset == old(offset) + delta
      ensures if delta != 0 then durable == data && pending == {}
              else durable == old(durable) && pending == old(pending)
    {
      if delta != 0 {
        durable, pending := data, {};
      }
      offset := offset + delta;
    }

    /** longSeekpFile: reaches `position` in steps an int can hold, with nothing left in the
        buffer. */
    method LongSeek(position: nat)
      modifies this`offset, this`durable, this`pending
      ensures offset == position && durable == data && pending == {}
    {
      var pos: int := position;
      var div := pos / SEEK_STEP;
      if div != 0 {
        SeekFromStart(SEEK_STEP);
        div := div - 1;
        pos := pos - SEEK_STEP;
        var i := 0;
        while i < div
          invariant 0 <= i <= div
          invariant offset + pos == position
          invariant (div - i) * SEEK_STEP <= pos < (div - i + 1) * SEEK_STEP
          invariant durable == data && pending == {}
        {
          SeekFromHere(SEEK_STEP);
          pos := pos - SEEK_STEP;
          i := i + 1;
        }
        SeekFromHere(pos);
      } else {
        SeekFromStart(pos);
      }
    }

    method Write(d: string)
      modifies this
      ensures data == Overwritten(old(data), old(offset), d)
      ensures offset == old(offset) + |d| && isOpen == old(isOpen)
      ensures durable == old(durable) && pending == old(pending) + WriteSet(old(offset), d)
    {
      data := Overwritten(data, offset, d);
      pending := pending + WriteSet(offset, d);
      offset := offset + |d|;
    }

    /** read + gcount: as much of `n` bytes as the file still has. */
    method Read(n: nat) returns (d: string)
      modifies this`offset
      ensures |d| == if old(offset) + n <= |data| then n else if old(offset) <= |data| then |data| - old(offset) else 0
      ensures d != [] ==> d == data[old(offset)..old(offset) + |d|]
      ensures offset == old(offset) + |d|
    {
      var got := if offset + n <= |data| then n else if offset <= |data| then |data| - offset else 0;
      d := if got == 0 then [] else data[offset..offset + got];
      offset := offset + got;
    }

    method Flush()
      modifies this`durable, this`pending
      ensures durable == data && pending == {}
    {
      durable, pending := data, {};
    }
  }
}
