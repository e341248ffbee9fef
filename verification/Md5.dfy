/** Incremental MD5: the class hashes a message handed over in pieces. */
module Md5 {
  import opened Md5Core

  const W32: int := 0x1_0000_0000
  const W64: int := 0x1_0000_0000_0000_0000

  /** uint4 */
  type Word = w: int | 0 <= w < 0x1_0000_0000

  const INITIAL: Regs := Regs(0x67452301, 0xefcdab89, 0x98badcfe, 0x10325476)

  // ----- the digest of a whole message, after RFC 1321

  /** The state after the full blocks of `bytes`. */
  function Absorb(state: Regs, bytes: seq<Byte>): Regs
    decreases |bytes|
  {
    if |bytes| < 64 then state else Absorb(Compress(state, bytes[..64]), bytes[64..])
  }

  function ZeroBytes(n: nat): (z: seq<Byte>)
    ensures |z| == n
  {
    seq(n, _ => 0 as Byte)
  }

  /** encode: a word, low byte first. */
  function Encode(w: Word): (b: seq<Byte>)
    ensures |b| == 4
  {
    [(w % 256) as Byte, (w / 256 % 256) as Byte, (w / 65536 % 256) as Byte, (w / 16777216 % 256) as Byte]
  }

  /** Bytes as a number, low byte first. */
  function Low(b: seq<Byte>): nat {
    if b == [] then 0 else b[0] as nat + 256 * Low(b[1..])
  }

  lemma LowOfFour(b: seq<Byte>)
    requires |b| == 4
    ensures Low(b) == b[0] as int + 256 * b[1] as int + 65536 * b[2] as int + 16777216 * b[3] as int
  {
    LowStep(b);
    LowStep(b[1..]);
    LowStep(b[2..]);
    LowStep(b[3..]);
    assert b[1..][1..] == b[2..] && b[2..][1..] == b[3..] && b[3..][1..] == [];
  }

  lemma LowStep(b: seq<Byte>)
    ensures Low(b) == if b == [] then 0 else b[0] as nat + 256 * Low(b[1..])
  {
  }

  lemma {:induction false} LowOfTwo(b: seq<Byte>, c: seq<Byte>)
    requires |b| == 4
    ensures Low(b + c) == Low(b) + W32 * Low(c)
  {
    LowOfFour(b);
    var s := b + c;
    LowStep(s);
    LowStep(s[1..]);
    LowStep(s[2..]);
    LowStep(s[3..]);
    assert s[1..][1..] == s[2..] && s[2..][1..] == s[3..] && s[3..][1..] == c;
  }

  /** encode writes the low byte first. */
  lemma EncodeIsLow(w: Word)
    ensures Low(Encode(w)) == w
  {
    var b, q := Encode(w), w / 256;
    var q2 := q / 256;
    assert w == 256 * q + w % 256 && q == 256 * q2 + q % 256 && q2 == 256 * (q2 / 256) + q2 % 256;
    assert w / 65536 == q2 && w / 16777216 == q2 / 256 < 256;
    LowOfFour(b);
  }

  lemma NextByte(x: bv8)
    requires x < 255
    ensures (x + 1) as int == x as int + 1
  {
  }

  lemma ByteComesBack(x: bv8)
    ensures (x as int) as bv8 == x && (x as int == 255 <==> x == 255)
  {
  }

  /** Every byte is a bit vector's value. */
  lemma {:induction false} SomeByte(n: nat) returns (x: bv8)
    requires n < 256
    ensures x as int == n
  {
    if n == 0 {
      x := 0;
    } else {
      x := SomeByte(n - 1);
      ByteComesBack(x);
      NextByte(x);
      x := x + 1;
    }
  }

  lemma OneByte(b: Byte)
    ensures (b as bv8) as int == b as int
  {
    var x := SomeByte(b as int);
    ByteComesBack(x);
  }

  lemma BackAndForth(x: bv32)
    ensures (x as int) as bv32 == x
  {
  }

  /** decode reads the low byte first. */
  lemma DecodeIsLow(b: seq<Byte>)
    requires |b| == 4
    ensures LittleWord(b) as int == Low(b)
  {
    hide Low, Joined;
    LowOfFour(b);
    OneByte(b[0]);
    OneByte(b[1]);
    OneByte(b[2]);
    OneByte(b[3]);
  }

  /** decode undoes encode. */
  lemma EncodeRoundTrip(w: Word)
    ensures LittleWord(Encode(w)) as int == w && LittleWord(Encode(w)) == w as bv32
  {
    hide Encode, LittleWord;
    EncodeIsLow(w);
    DecodeIsLow(Encode(w));
    BackAndForth(LittleWord(Encode(w)));
  }

  /** Zero bytes between the 0x80 byte and the length. */
  function PadZeros(n: nat): nat { (119 - n % 64) % 64 }

  /** Sections 3.1 and 3.2 of RFC 1321: a one bit, the fewest zero bits that leave room for
      the length in the last block, and the bit count modulo 2^64, low word first. */
  function Padded(message: seq<Byte>): seq<Byte> {
    var bits := 8 * |message| % W64;
    message + [0x80] + ZeroBytes(PadZeros(|message|)) + Encode(bits % W32) + Encode(bits / W32)
  }

  function WordOf(x: bv32): Word { x as int }

  function EncodeRegs(r: Regs): (b: seq<Byte>)
    ensures |b| == 16
  {
    Encode(WordOf(r.a)) + Encode(WordOf(r.b)) + Encode(WordOf(r.c)) + Encode(WordOf(r.d))
  }

  /** The MD5 digest of a message. */
  function Digest(message: seq<Byte>): seq<Byte> {
    EncodeRegs(Absorb(INITIAL, Padded(message)))
  }

  lemma PadZerosFill(n: nat)
    ensures PadZeros(n) < 64 && (n + 9 + PadZeros(n)) % 64 == 0
  {
    var r, q := n % 64, n / 64;
    if r <= 55 {
      assert n + 9 + PadZeros(n) == 64 * (q + 1);
    } else {
      assert n + 9 + PadZeros(n) == 64 * (q + 2);
    }
  }

  /** The padded message is whole blocks, with the fewest zeros that make it so. */
  lemma PaddedIsBlocks(message: seq<Byte>)
    ensures |Padded(message)| % 64 == 0
    ensures |message| + 9 <= |Padded(message)| < |message| + 73
  {
    hide Encode;
    PadZerosFill(|message|);
    assert |Padded(message)| == |message| + 9 + PadZeros(|message|);
  }

  /** Padding, byte by byte: the message, 0x80, zeros, and in the last eight bytes the number of
      its bits modulo 2^64, low byte first. */
  lemma PaddedMeaning(message: seq<Byte>)
    ensures var p, n := Padded(message), |message|;
            && n + 9 <= |p| && p[..n] == message && p[n] == 0x80
            && (forall i :: n < i < |p| - 8 ==> p[i] == 0)
            && Low(p[|p| - 8..]) == 8 * n % W64
  {
    hide Encode, Low;
    var p, n, bits := Padded(message), |message|, 8 * |message| % W64;
    var lo, hi := Encode(bits % W32), Encode(bits / W32);
    assert |p| == n + 9 + PadZeros(n);
    assert p[|p| - 8..] == lo + hi;
    LowOfTwo(lo, hi);
    EncodeIsLow(bits % W32);
    EncodeIsLow(bits / W32);
  }

  /** The initial state, low byte first: section 3.3 of RFC 1321. */
  lemma InitialBytes()
    ensures EncodeRegs(INITIAL) == [0x01, 0x23, 0x45, 0x67, 0x89, 0xab, 0xcd, 0xef,
                                    0xfe, 0xdc, 0xba, 0x98, 0x76, 0x54, 0x32, 0x10]
  {
  }

  lemma WordComesBack(x: bv32)
    ensures LittleWord(Encode(WordOf(x))) == x
  {
    hide Encode, LittleWord;
    EncodeRoundTrip(WordOf(x));
    BackAndForth(x);
  }

  /** The digest is the four state words, low byte first. */
  lemma DigestIsState(message: seq<Byte>)
    ensures var d, s := Digest(message), Absorb(INITIAL, Padded(message));
            |d| == 16 && Decode(d + ZeroBytes(48))[..4] == [s.a, s.b, s.c, s.d]
  {
    hide Encode, LittleWord, Absorb, Padded, WordOf;
    var d, s := Digest(message), Absorb(INITIAL, Padded(message));
    var block := d + ZeroBytes(48);
    assert block[0..4] == Encode(WordOf(s.a)) && block[4..8] == Encode(WordOf(s.b));
    assert block[8..12] == Encode(WordOf(s.c)) && block[12..16] == Encode(WordOf(s.d));
    WordComesBack(s.a);
    WordComesBack(s.b);
    WordComesBack(s.c);
    WordComesBack(s.d);
  }

  lemma {:induction false} AbsorbTwice(state: Regs, x: seq<Byte>, y: seq<Byte>)
    requires |x| % 64 == 0
    ensures Absorb(state, x + y) == Absorb(Absorb(state, x), y)
    decreases |x|
  {
    hide Compress;
    if |x| == 0 {
      assert x + y == y;
    } else {
      assert (x + y)[..64] == x[..64] && (x + y)[64..] == x[64..] + y;
      AbsorbTwice(Compress(state, x[..64]), x[64..], y);
    }
  }

  lemma AbsorbOne(state: Regs, x: seq<Byte>, block: seq<Byte>)
    requires |x| % 64 == 0 && |block| == 64
    ensures Absorb(state, x + block) == Compress(Absorb(state, x), block)
  {
    hide Compress;
    AbsorbTwice(state, x, block);
    assert block[..64] == block && block[64..] == [];
  }

  // ----- the two-word bit counter

  /** Adding 8 * length to the counter as update does: wrapping words and a carry. */
  function Counted(lo: Word, hi: Word, length: Word): (Word, Word) {
    var add := 8 * length % W32;
    var lo' := (lo + add) % W32;
    var hi' := if lo' < add then (hi + 1) % W32 else hi;
    (lo', (hi' + length / 0x2000_0000) % W32)
  }

  lemma AtLeast(d: int, m: int)
    requires 0 < m
    ensures d >= 1 ==> d * m >= m
  {
  }

  lemma Remainder(v: int, k: int, r: int, m: int)
    requires 0 <= r < m && v == k * m + r
    ensures v % m == r && v / m == k
  {
    var d := k - v / m;
    assert d * m == v % m - r;
    AtLeast(d, m);
    AtLeast(-d, m);
    assert -d * m == -(d * m);
  }

  /** The counter counts bits modulo 2^64. */
  lemma CountedAdds(lo: Word, hi: Word, length: Word)
    ensures var (lo', hi') := Counted(lo, hi, length);
            hi' * W32 + lo' == (hi * W32 + lo + 8 * length) % W64
  {
    var up := length / 0x2000_0000;
    var add := 8 * (length % 0x2000_0000);
    assert 8 * length == up * W32 + add;
    Remainder(8 * length, up, add, W32);
    var carry := if lo + add >= W32 then 1 else 0;
    var lo' := lo + add - carry * W32;
    Remainder(lo + add, carry, lo', W32);
    var top := hi + carry + up;
    var k, hi' := top / W32, top % W32;
    assert Counted(lo, hi, length) == (lo', hi') by {
      if carry == 1 {
        assert ((hi + 1) % W32 + up) % W32 == hi';
      }
    }
    assert hi * W32 + lo + 8 * length == k * W64 + (hi' * W32 + lo');
    Remainder(hi * W32 + lo + 8 * length, k, hi' * W32 + lo', W64);
  }

  /** The two words hold the bit count of `n` bytes. */
  ghost predicate CountsBits(lo: Word, hi: Word, n: nat) {
    hi * W32 + lo == 8 * n % W64
  }

  /** The counter knows how many bytes are in the buffer. */
  lemma BufferIndex(lo: Word, hi: Word, n: nat)
    requires CountsBits(lo, hi, n)
    ensures lo / 8 % 64 == n % 64
  {
    var k := 8 * n / W64;
    assert 8 * n == k * W64 + hi * W32 + lo;
    var m := n - k * 0x2000_0000_0000_0000 - hi * 0x2000_0000;
    assert lo == 8 * m;
    assert lo / 8 == m;
    assert n == 64 * (k * 0x80_0000_0000_0000 + hi * 0x80_0000) + m;
    Remainder(n, k * 0x80_0000_0000_0000 + hi * 0x80_0000 + m / 64, m % 64, 64);
  }

  // ----- the loop over full blocks

  /** The loop of update stops: its bound `i + 64`, an unsigned 32-bit number, passes the end
      of an input of `length` bytes before it wraps, with `index` bytes in the buffer. */
  predicate LoopEnds(index: nat, length: nat) {
    if index == 0 then length < W32 - 64 else index + length < W32
  }

  lemma BoundDoesNotWrap(index: nat, length: nat, i: nat)
    requires LoopEnds(index, length) && index < 64 && i <= length && (index + i) % 64 == 0
    ensures (i + 64) % W32 == i + 64 < W32
  {
    var m := (index + i) / 64;
    assert i == 64 * m - index;
  }

  /** Otherwise it never stops: wherever it stands, it goes on. */
  lemma LoopNeverEnds(index: nat, length: Word, i: Word)
    requires !LoopEnds(index, length) && index < 64 && (index + i) % 64 == 0
    ensures var next := (i + 64) % W32; next <= length && (index + next) % 64 == 0
  {
    var m := (index + i) / 64;
    var next := (i + 64) % W32;
    assert i == 64 * m - index;
    if i + 64 < W32 {
      Remainder(i + 64, 0, i + 64, W32);
      Remainder(index + next, m + 1, 0, 64);
    } else {
      Remainder(i + 64, 1, i + 64 - W32, W32);
      Remainder(index + next, m + 1 - W32 / 64, 0, 64);
    }
  }

  // ----- the class

  ghost function Tail(message: seq<Byte>): seq<Byte> {
    message[|message| - |message| % 64..]
  }

  ghost function Blocks(message: seq<Byte>): seq<Byte> {
    message[..|message| - |message| % 64]
  }

  lemma LessThanABlock(state: Regs, message: seq<Byte>)
    requires |message| < 64
    ensures Blocks(message) == [] && Tail(message) == message && Absorb(state, Blocks(message)) == state
  {
    hide Compress;
  }

  class MD5 {
    var finalized: bool
    const buffer: array<Byte>
    var lo: Word
    var hi: Word
    var state: Regs
    var digest: seq<Byte>

    /** What was handed over so far. */
    ghost var message: seq<Byte>

    /** The full blocks are in the state, the rest in the buffer, the bit count in the words. */
    ghost predicate Valid()
      reads this, buffer
    {
      && buffer.Length == 64
      && state == Absorb(INITIAL, Blocks(message))
      && buffer[..|message| % 64] == Tail(message)
      && CountsBits(lo, hi, |message|)
    }

    constructor ()
      ensures Valid() && !finalized && message == [] && fresh(buffer)
    {
      hide Absorb, Blocks, Tail;
      finalized := false;
      lo, hi := 0, 0;
      state := INITIAL;
      digest := [];
      message := [];
      buffer := new Byte[64](_ => 0);
      new;
      LessThanABlock(INITIAL, message);
    }

    /** memcpy into the buffer. */
    method Fill(at: nat, input: seq<Byte>)
      requires at + |input| <= buffer.Length
      modifies buffer
      ensures buffer[..at + |input|] == old(buffer[..at]) + input
    {
      forall i | 0 <= i < |input| {
        buffer[at + i] := input[i];
      }
    }

    /** The number of bytes mod 64, from the bit count. */
    method BytesInBuffer() returns (index: nat)
      requires CountsBits(lo, hi, |message|)
      ensures index == |message| % 64
    {
      BufferIndex(lo, hi, |message|);
      index := lo / 8 % 64;
    }

    /** The counting part of update. */
    method CountBits(length: Word)
      requires CountsBits(lo, hi, |message|)
      modifies `lo, `hi
      ensures CountsBits(lo, hi, |message| + length)
    {
      CountedAdds(lo, hi, length);
      CountGrows(|message|, length);
      var add := 8 * length % W32;
      lo := (lo + add) % W32;
      if lo < add {
        hi := (hi + 1) % W32;
      }
      hi := (hi + length / 0x2000_0000) % W32;
    }

    /** The buffer, filled up from the input, is the first block. */
    method TakeFirst(input: seq<Byte>, index: nat)
      requires buffer.Length == 64 && index == |message| % 64 && 64 - index <= |input|
      requires state == Absorb(INITIAL, Blocks(message)) && buffer[..index] == Tail(message)
      modifies `state, buffer
      ensures (|message| + (64 - index)) % 64 == 0
      ensures state == Absorb(INITIAL, (message + input)[..|message| + (64 - index)])
    {
      hide Compress, Absorb, Blocks, Tail;
      Fill(index, input[..64 - index]);
      assert buffer[..] == buffer[..64];
      FirstBlock(message, input, buffer[..]);
      AbsorbOne(INITIAL, Blocks(message), buffer[..]);
      state := Transform(state, buffer[..]);
    }

    /** The transforming part of update: the buffer is filled up and all full blocks of the
        input are taken. Returns how much of the input went into blocks. */
    method TakeBlocks(input: seq<Byte>, index: nat) returns (i: nat)
      requires buffer.Length == 64 && index == |message| % 64 && 64 - index <= |input| && LoopEnds(index, |input|)
      requires state == Absorb(INITIAL, Blocks(message)) && buffer[..index] == Tail(message)
      modifies `state, buffer
      ensures 64 - index <= i <= |input| < i + 64 && (|message| + i) % 64 == 0
      ensures state == Absorb(INITIAL, (message + input)[..|message| + i])
    {
      hide Compress;
      ghost var all := message + input;
      i := 64 - index;
      TakeFirst(input, index);
      BoundDoesNotWrap(index, |input|, i);
      while (i + 64) % W32 <= |input|
        invariant 64 - index <= i <= |input| && (index + i) % 64 == 0 && (|message| + i) % 64 == 0
        invariant (i + 64) % W32 == i + 64
        invariant state == Absorb(INITIAL, all[..|message| + i])
        decreases |input| - i
      {
        NextBlock(message, input, i);
        AbsorbOne(INITIAL, all[..|message| + i], input[i..i + 64]);
        state := Transform(state, input[i..i + 64]);
        i := i + 64;
        Remainder(index + i, (index + i - 64) / 64 + 1, 0, 64);
        BoundDoesNotWrap(index, |input|, i);
      }
    }

    /** update: the next `input` of the message, of a length at which its loop ends. */
    method Update(input: seq<Byte>)
      requires Valid() && LoopEnds(|message| % 64, |input|)
      modifies this, buffer
      ensures Valid() && message == old(message) + input
      ensures finalized == old(finalized) && digest == old(digest)
    {
      hide Compress, Absorb, Blocks, Tail, CountsBits;
      var length: Word := |input|;
      var index := BytesInBuffer();
      CountBits(length);
      var i := 0;
      if length >= 64 - index {
        i := TakeBlocks(input, index);
        index := 0;
        BlocksTaken(message, input, i);
      } else {
        NoBlockTaken(message, input);
      }
      Fill(index, input[i..]);
      message := message + input;
    }

    /** finalize: pads the message, appends its length and takes the digest; then everything
        but the state is wiped. Does nothing the second time. */
    method Finalize()
      requires !finalized ==> Valid()
      requires buffer.Length == 64
      modifies this, buffer
      ensures finalized && message == old(message)
      ensures digest == if old(finalized) then old(digest) else Digest(old(message))
      ensures !old(finalized) ==> lo == 0 && hi == 0 && forall i :: 0 <= i < 64 ==> buffer[i] == 0
    {
      hide Compress, Absorb, Encode, Blocks, Tail, EncodeRegs;
      if !finalized {
        ghost var whole := message;
        BitsOfCount(lo, hi, |message|);
        var bits := Encode(lo) + Encode(hi);
        var index := BytesInBuffer();
        var padLen := if index < 56 then 56 - index else 120 - index;
        var padding := [0x80 as Byte] + ZeroBytes(63);
        Update(padding[..padLen]);
        Update(bits);
        PaddedInTwo(whole, padding[..padLen], bits);
        digest := EncodeRegs(state);
        forall i | 0 <= i < 64 {
          buffer[i] := 0;
        }
        lo, hi := 0, 0;
        finalized := true;
        message := whole;
      }
    }
  }

  lemma CountGrows(n: nat, m: nat)
    ensures (8 * n % W64 + 8 * m) % W64 == 8 * (n + m) % W64
  {
    var k := 8 * n / W64;
    var v := 8 * n % W64 + 8 * m;
    Remainder(8 * (n + m), k + v / W64, v % W64, W64);
  }

  /** Input that does not fill the buffer joins what is in it. */
  lemma NoBlockTaken(message: seq<Byte>, input: seq<Byte>)
    requires |message| % 64 + |input| < 64
    ensures Blocks(message + input) == Blocks(message) && |Tail(message)| == |message| % 64
    ensures |message + input| % 64 == |message| % 64 + |input|
    ensures Tail(message + input) == Tail(message) + input
  {
    Remainder(|message + input|, |message| / 64, |message| % 64 + |input|, 64);
  }

  /** With `i` input bytes in blocks, the others are all the buffer has to hold. */
  lemma BlocksTaken(message: seq<Byte>, input: seq<Byte>, i: nat)
    requires i <= |input| < i + 64 && (|message| + i) % 64 == 0
    ensures Blocks(message + input) == (message + input)[..|message| + i]
    ensures |message + input| % 64 == |input| - i
    ensures Tail(message + input) == input[i..]
  {
    Remainder(|message + input|, (|message| + i) / 64, |input| - i, 64);
  }

  lemma BitsOfCount(lo: Word, hi: Word, n: nat)
    requires CountsBits(lo, hi, n)
    ensures lo == 8 * n % W64 % W32 && hi == 8 * n % W64 / W32
  {
    Remainder(8 * n % W64, hi, lo, W32);
  }

  /** The padding bytes and the length, handed over one after the other, make the padded
      message, all of it in blocks. */
  lemma PaddedInTwo(message: seq<Byte>, padding: seq<Byte>, bits: seq<Byte>)
    requires var index := |message| % 64;
             padding == [0x80] + ZeroBytes((if index < 56 then 56 - index else 120 - index) - 1)
    requires bits == Encode(8 * |message| % W64 % W32) + Encode(8 * |message| % W64 / W32)
    ensures message + padding + bits == Padded(message)
    ensures Blocks(Padded(message)) == Padded(message)
  {
    hide Encode;
    PaddedIsBlocks(message);
    assert |padding| == 1 + PadZeros(|message|);
    assert message + padding + bits == Padded(message);
  }

  /** The bytes in the buffer, filled up from the input, are the next block of the message. */
  lemma FirstBlock(message: seq<Byte>, input: seq<Byte>, block: seq<Byte>)
    requires var n := 64 - |message| % 64;
             n <= |input| && block == Tail(message) + input[..n]
    ensures |Blocks(message)| % 64 == 0 && |block| == 64
    ensures var n := 64 - |message| % 64;
            (|message| + n) % 64 == 0 && (message + input)[..|message| + n] == Blocks(message) + block
  {
    var q, r := |message| / 64, |message| % 64;
    assert |message| - r == 64 * q;
    assert |message| + (64 - r) == 64 * (q + 1);
  }

  lemma NextBlock(message: seq<Byte>, input: seq<Byte>, i: nat)
    requires i + 64 <= |input| && (|message| + i) % 64 == 0
    ensures (message + input)[..|message| + (i + 64)] == (message + input)[..|message| + i] + input[i..i + 64]
    ensures (|message| + (i + 64)) % 64 == 0
  {
  }

  function Concat(pieces: seq<seq<Byte>>): seq<Byte> {
    if pieces == [] then [] else Concat(pieces[..|pieces| - 1]) + pieces[|pieces| - 1]
  }

  lemma NoPieces(pieces: seq<seq<Byte>>)
    ensures pieces == [] ==> Concat(pieces) == []
  {
  }

  lemma ConcatOneMore(pieces: seq<seq<Byte>>, i: nat)
    requires i < |pieces|
    ensures Concat(pieces[..i + 1]) == Concat(pieces[..i]) + pieces[i]
  {
    assert pieces[..i + 1][..i] == pieces[..i];
  }

  /** However a message is cut into pieces, hashing the pieces one after the other gives the
      digest of the message. */
  method DigestOf(pieces: seq<seq<Byte>>) returns (digest: seq<Byte>)
    requires forall i :: 0 <= i < |pieces| ==> LoopEnds(|Concat(pieces[..i])| % 64, |pieces[i]|)
    ensures digest == Digest(Concat(pieces))
  {
    hide Digest, Concat, LoopEnds, Absorb, Blocks, Tail, CountsBits;
    var md5 := new MD5();
    var i := 0;
    NoPieces(pieces[..0]);
    while i < |pieces|
      invariant 0 <= i <= |pieces| && fresh(md5) && fresh(md5.buffer)
      invariant md5.Valid() && !md5.finalized && md5.message == Concat(pieces[..i])
    {
      ConcatOneMore(pieces, i);
      md5.Update(pieces[i]);
      i := i + 1;
    }
    assert pieces[..i] == pieces;
    md5.Finalize();
    digest := md5.digest;
  }
}
