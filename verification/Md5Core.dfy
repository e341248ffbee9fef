/** The MD5 compression function: 64 steps on four registers, table-driven. */
module Md5Core {

  /** uint1 */
  newtype Byte = x: int | 0 <= x < 256

  /** The four state words. */
  datatype Regs = Regs(a: bv32, b: bv32, c: bv32, d: bv32)

  // ----- the tables of the four rounds

  /** Additive constants. */
  const ADD1: seq<bv32> := [
    0xd76aa478, 0xe8c7b756, 0x242070db, 0xc1bdceee, 0xf57c0faf, 0x4787c62a, 0xa8304613, 0xfd469501,
    0x698098d8, 0x8b44f7af, 0xffff5bb1, 0x895cd7be, 0x6b901122, 0xfd987193, 0xa679438e, 0x49b40821]
  const ADD2: seq<bv32> := [
    0xf61e2562, 0xc040b340, 0x265e5a51, 0xe9b6c7aa, 0xd62f105d, 0x2441453, 0xd8a1e681, 0xe7d3fbc8,
    0x21e1cde6, 0xc33707d6, 0xf4d50d87, 0x455a14ed, 0xa9e3e905, 0xfcefa3f8, 0x676f02d9, 0x8d2a4c8a]
  const ADD3: seq<bv32> := [
    0xfffa3942, 0x8771f681, 0x6d9d6122, 0xfde5380c, 0xa4beea44, 0x4bdecfa9, 0xf6bb4b60, 0xbebfbc70,
    0x289b7ec6, 0xeaa127fa, 0xd4ef3085, 0x4881d05, 0xd9d4d039, 0xe6db99e5, 0x1fa27cf8, 0xc4ac5665]
  const ADD4: seq<bv32> := [
    0xf4292244, 0x432aff97, 0xab9423a7, 0xfc93a039, 0x655b59c3, 0x8f0ccc92, 0xffeff47d, 0x85845dd1,
    0x6fa87e4f, 0xfe2ce6e0, 0xa3014314, 0x4e0811a1, 0xf7537e82, 0xbd3af235, 0x2ad7d2bb, 0xeb86d391]

  /** Words of the block. */
  const WORD1: seq<nat> := [0, 1, 2, 3, 4, 5, 6, 7, 8, 9, 10, 11, 12, 13, 14, 15]
  const WORD2: seq<nat> := [1, 6, 11, 0, 5, 10, 15, 4, 9, 14, 3, 8, 13, 2, 7, 12]
  const WORD3: seq<nat> := [5, 8, 11, 14, 1, 4, 7, 10, 13, 0, 3, 6, 9, 12, 15, 2]
  const WORD4: seq<nat> := [0, 7, 14, 5, 12, 3, 10, 1, 8, 15, 6, 13, 4, 11, 2, 9]

  /** Left rotations, four a round. */
  const SHIFT1: seq<nat> := [7, 12, 17, 22]
  const SHIFT2: seq<nat> := [5, 9, 14, 20]
  const SHIFT3: seq<nat> := [4, 11, 16, 23]
  const SHIFT4: seq<nat> := [6, 10, 15, 21]

  /** The additive constant of step `i`. */
  function Constant(i: nat): bv32
    requires i < 64
  {
    if i < 16 then ADD1[i] else if i < 32 then ADD2[i - 16] else if i < 48 then ADD3[i - 32] else ADD4[i - 48]
  }

  /** The word step `i` takes. */
  function Index(i: nat): (w: nat)
    requires i < 64
    ensures w < 16
  {
    if i < 16 then WORD1[i] else if i < 32 then WORD2[i - 16] else if i < 48 then WORD3[i - 32] else WORD4[i - 48]
  }

  /** Each round goes through the block once, in steps of 1, 5, 3 and 7 words. */
  lemma Rounds(i: nat)
    requires i < 16
    ensures Index(i) == i && Index(i + 16) == (5 * i + 1) % 16
    ensures Index(i + 32) == (3 * i + 5) % 16 && Index(i + 48) == 7 * i % 16
  {
  }

  /** The rotation of step `i`. */
  function Rotation(i: nat): (n: nat)
    requires i < 64
    ensures n <= 32
  {
    if i < 16 then SHIFT1[i % 4] else if i < 32 then SHIFT2[i % 4] else if i < 48 then SHIFT3[i % 4] else SHIFT4[i % 4]
  }

  function F(x: bv32, y: bv32, z: bv32): bv32 { (x & y) | (!x & z) }

  function G(x: bv32, y: bv32, z: bv32): bv32 { (x & z) | (y & !z) }

  function H(x: bv32, y: bv32, z: bv32): bv32 { x ^ y ^ z }

  function I(x: bv32, y: bv32, z: bv32): bv32 { y ^ (x | !z) }

  /** F takes each bit from y where x is set and from z elsewhere. */
  lemma FChooses(x: bv32, y: bv32, z: bv32)
    ensures F(x, y, z) & x == y & x && F(x, y, z) & !x == z & !x
  {
  }

  /** G takes it from x where z is set and from y elsewhere. */
  lemma GChooses(x: bv32, y: bv32, z: bv32)
    ensures G(x, y, z) & z == x & z && G(x, y, z) & !z == y & !z
  {
  }

  /** H is the parity of the three. */
  lemma HIsParity(x: bv32, y: bv32, z: bv32)
    ensures H(x, y, z) ^ x ^ y == z
  {
  }

  /** I turns y around where x is set or z is not. */
  lemma ITurns(x: bv32, y: bv32, z: bv32)
    ensures I(x, y, z) & (x | !z) == !y & (x | !z) && I(x, y, z) & !(x | !z) == y & !(x | !z)
  {
  }

  function RotateLeft(x: bv32, n: nat): bv32
    requires n <= 32
  {
    (x << n) | (x >> (32 - n))
  }

  /** It rotates to the left, by each of the amounts in the tables. */
  lemma RotatesLeft(x: bv32)
    ensures RotateLeft(x, 7) == x.RotateLeft(7) && RotateLeft(x, 12) == x.RotateLeft(12)
    ensures RotateLeft(x, 17) == x.RotateLeft(17) && RotateLeft(x, 22) == x.RotateLeft(22)
    ensures RotateLeft(x, 5) == x.RotateLeft(5) && RotateLeft(x, 9) == x.RotateLeft(9)
    ensures RotateLeft(x, 14) == x.RotateLeft(14) && RotateLeft(x, 20) == x.RotateLeft(20)
    ensures RotateLeft(x, 4) == x.RotateLeft(4) && RotateLeft(x, 11) == x.RotateLeft(11)
    ensures RotateLeft(x, 16) == x.RotateLeft(16) && RotateLeft(x, 23) == x.RotateLeft(23)
    ensures RotateLeft(x, 6) == x.RotateLeft(6) && RotateLeft(x, 10) == x.RotateLeft(10)
    ensures RotateLeft(x, 15) == x.RotateLeft(15) && RotateLeft(x, 21) == x.RotateLeft(21)
  {
  }

  function Mix(i: nat, x: bv32, y: bv32, z: bv32): bv32 {
    if i < 16 then F(x, y, z) else if i < 32 then G(x, y, z) else if i < 48 then H(x, y, z) else I(x, y, z)
  }

  /** The register that step `i` computes in the place of `p`. */
  function Turned(i: nat, p: bv32, q: bv32, r: bv32, s: bv32, x: seq<bv32>): bv32
    requires i < 64 && |x| == 16
  {
    RotateLeft(p + Mix(i, q, r, s) + x[Index(i)] + Constant(i), Rotation(i)) + q
  }

  /** Step `i`: the first register is replaced, and the registers change roles. */
  function Step(i: nat, r: Regs, x: seq<bv32>): Regs
    requires i < 64 && |x| == 16
  {
    Regs(r.d, Turned(i, r.a, r.b, r.c, r.d, x), r.b, r.c)
  }

  function Steps(i: nat, r: Regs, x: seq<bv32>): Regs
    requires i <= 64 && |x| == 16
    decreases 64 - i
  {
    if i == 64 then r else Steps(i + 1, Step(i, r, x), x)
  }

  lemma JoinedIsLow(a: bv8, b: bv8, c: bv8, d: bv8)
    ensures ((a as bv32) | ((b as bv32) << 8) | ((c as bv32) << 16) | ((d as bv32) << 24)) as int ==
            a as int + 256 * b as int + 65536 * c as int + 16777216 * d as int
  {
  }

  /** Four bytes as decode puts them together: the first is the low one. */
  function Joined(a: bv8, b: bv8, c: bv8, d: bv8): (w: bv32)
    ensures w as int == a as int + 256 * b as int + 65536 * c as int + 16777216 * d as int
  {
    JoinedIsLow(a, b, c, d);
    (a as bv32) | ((b as bv32) << 8) | ((c as bv32) << 16) | ((d as bv32) << 24)
  }

  /** Four steps replace the registers a, d, c and b, one after the other. */
  lemma FourSteps(i: nat, r: Regs, x: seq<bv32>)
    requires i <= 60 && |x| == 16
    ensures var a := Turned(i, r.a, r.b, r.c, r.d, x);
            var d := Turned(i + 1, r.d, a, r.b, r.c, x);
            var c := Turned(i + 2, r.c, d, a, r.b, x);
            var b := Turned(i + 3, r.b, c, d, a, x);
            Steps(i, r, x) == Steps(i + 4, Regs(a, b, c, d), x)
  {
    hide Turned;
    var r1 := Step(i, r, x);
    var r2 := Step(i + 1, r1, x);
    var r3 := Step(i + 2, r2, x);
    assert Steps(i, r, x) == Steps(i + 1, r1, x) == Steps(i + 2, r2, x) == Steps(i + 3, r3, x);
  }

  function LittleWord(b: seq<Byte>): bv32
    requires |b| == 4
  {
    Joined(b[0] as bv8, b[1] as bv8, b[2] as bv8, b[3] as bv8)
  }

  /** decode: the sixteen words of a block. */
  function Decode(block: seq<Byte>): (x: seq<bv32>)
    requires |block| == 64
    ensures |x| == 16
  {
    seq(16, i requires 0 <= i < 16 => LittleWord(block[4 * i..4 * i + 4]))
  }

  function Plus(r: Regs, s: Regs): Regs { Regs(r.a + s.a, r.b + s.b, r.c + s.c, r.d + s.d) }

  /** What transform does to the state for one block. */
  function Compress(state: Regs, block: seq<Byte>): Regs
    requires |block| == 64
  {
    Plus(state, Steps(0, state, Decode(block)))
  }

  /** transform */
  method Transform(state: Regs, block: seq<Byte>) returns (r: Regs)
    requires |block| == 64
    ensures r == Compress(state, block)
  {
    var x := Decode(block);
    var regs := state;
    for i := 0 to 64
      invariant Steps(i, regs, x) == Steps(0, state, x)
    {
      regs := Step(i, regs, x);
    }
    r := Plus(state, regs);
  }
}
