/** The MD5 digest as RFC 1321, section 3, defines it. */
module Rfc1321 {
  type byte = bv8

  /** The four registers. */
  datatype State = State(a: bv32, b: bv32, c: bv32, d: bv32)

  /** Initial registers (section 3.3). */
  const IV := State(0x67452301, 0xefcdab89, 0x98badcfe, 0x10325476)

  /** Addition of words, modulo 2^32 (section 2). */
  function Plus(x: bv32, y: bv32): bv32 { x + y }

  // ----- auxiliary functions and tables (section 3.4)

  function F(x: bv32, y: bv32, z: bv32): bv32 { (x & y) | (!x & z) }

  function G(x: bv32, y: bv32, z: bv32): bv32 { (x & z) | (y & !z) }

  function H(x: bv32, y: bv32, z: bv32): bv32 { x ^ y ^ z }

  function I(x: bv32, y: bv32, z: bv32): bv32 { y ^ (x | !z) }

  /** Circular left shift. */
  function Rotated(x: bv32, s: nat): bv32
    requires s < 32
  {
    (x << s) | (x >> (32 - s))
  }

  /** The auxiliary function of round r (0 to 3). */
  function Mix(r: nat, x: bv32, y: bv32, z: bv32): bv32 {
    match r case 0 => F(x, y, z) case 1 => G(x, y, z) case 2 => H(x, y, z) case _ => I(x, y, z)
  }

  /** What a step uses: word k of the block, a rotation by s, and the entry t of the sine table. */
  datatype Operation = Operation(k: nat, s: nat, t: bv32)

  /** The operations as the RFC lists them, by round and step (0 to 15). */
  function Listed(r: nat, i: nat): (op: Operation)
    ensures op.k < 16 && 0 < op.s < 32
  {
    match r case 0 => Operations1(i) case 1 => Operations2(i) case 2 => Operations3(i) case _ => Operations4(i)
  }

  function Operations1(i: nat): (op: Operation)
    ensures op.k < 16 && 0 < op.s < 32
  {
    match i
    case 0 => Operation(0, 7, 0xd76aa478) case 1 => Operation(1, 12, 0xe8c7b756)
    case 2 => Operation(2, 17, 0x242070db) case 3 => Operation(3, 22, 0xc1bdceee)
    case 4 => Operation(4, 7, 0xf57c0faf) case 5 => Operation(5, 12, 0x4787c62a)
    case 6 => Operation(6, 17, 0xa8304613) case 7 => Operation(7, 22, 0xfd469501)
    case 8 => Operation(8, 7, 0x698098d8) case 9 => Operation(9, 12, 0x8b44f7af)
    case 10 => Operation(10, 17, 0xffff5bb1) case 11 => Operation(11, 22, 0x895cd7be)
    case 12 => Operation(12, 7, 0x6b901122) case 13 => Operation(13, 12, 0xfd987193)
    case 14 => Operation(14, 17, 0xa679438e) case _ => Operation(15, 22, 0x49b40821)
  }

  function Operations2(i: nat): (op: Operation)
    ensures op.k < 16 && 0 < op.s < 32
  {
    match i
    case 0 => Operation(1, 5, 0xf61e2562) case 1 => Operation(6, 9, 0xc040b340)
    case 2 => Operation(11, 14, 0x265e5a51) case 3 => Operation(0, 20, 0xe9b6c7aa)
    case 4 => Operation(5, 5, 0xd62f105d) case 5 => Operation(10, 9, 0x02441453)
    case 6 => Operation(15, 14, 0xd8a1e681) case 7 => Operation(4, 20, 0xe7d3fbc8)
    case 8 => Operation(9, 5, 0x21e1cde6) case 9 => Operation(14, 9, 0xc33707d6)
    case 10 => Operation(3, 14, 0xf4d50d87) case 11 => Operation(8, 20, 0x455a14ed)
    case 12 => Operation(13, 5, 0xa9e3e905) case 13 => Operation(2, 9, 0xfcefa3f8)
    case 14 => Operation(7, 14, 0x676f02d9) case _ => Operation(12, 20, 0x8d2a4c8a)
  }

  function Operations3(i: nat): (op: Operation)
    ensures op.k < 16 && 0 < op.s < 32
  {
    match i
    case 0 => Operation(5, 4, 0xfffa3942) case 1 => Operation(8, 11, 0x8771f681)
    case 2 => Operation(11, 16, 0x6d9d6122) case 3 => Operation(14, 23, 0xfde5380c)
    case 4 => Operation(1, 4, 0xa4beea44) case 5 => Operation(4, 11, 0x4bdecfa9)
    case 6 => Operation(7, 16, 0xf6bb4b60) case 7 => Operation(10, 23, 0xbebfbc70)
    case 8 => Operation(13, 4, 0x289b7ec6) case 9 => Operation(0, 11, 0xeaa127fa)
    case 10 => Operation(3, 16, 0xd4ef3085) case 11 => Operation(6, 23, 0x04881d05)
    case 12 => Operation(9, 4, 0xd9d4d039) case 13 => Operation(12, 11, 0xe6db99e5)
    case 14 => Operation(15, 16, 0x1fa27cf8) case _ => Operation(2, 23, 0xc4ac5665)
  }

  function Operations4(i: nat): (op: Operation)
    ensures op.k < 16 && 0 < op.s < 32
  {
    match i
    case 0 => Operation(0, 6, 0xf4292244) case 1 => Operation(7, 10, 0x432aff97)
    case 2 => Operation(14, 15, 0xab9423a7) case 3 => Operation(5, 21, 0xfc93a039)
    case 4 => Operation(12, 6, 0x655b59c3) case 5 => Operation(3, 10, 0x8f0ccc92)
    case 6 => Operation(10, 15, 0xffeff47d) case 7 => Operation(1, 21, 0x85845dd1)
    case 8 => Operation(8, 6, 0x6fa87e4f) case 9 => Operation(15, 10, 0xfe2ce6e0)
    case 10 => Operation(6, 15, 0xa3014314) case 11 => Operation(13, 21, 0x4e0811a1)
    case 12 => Operation(4, 6, 0xf7537e82) case 13 => Operation(11, 10, 0xbd3af235)
    case 14 => Operation(2, 15, 0x2ad7d2bb) case _ => Operation(9, 21, 0xeb86d391)
  }

  /** A step: a := b + ((a + Mix(b, c, d) + X[k] + T[i]) <<< s), then the registers trade names. */
  function Step(r: nat, i: nat, s: State, x: seq<bv32>): State
    requires |x| == 16
  {
    var op := Listed(r, i);
    State(s.d, Plus(s.b, Rotated(Plus(Plus(Plus(s.a, Mix(r, s.b, s.c, s.d)), x[op.k]), op.t), op.s)), s.b, s.c)
  }

  /** The first n steps of round r. */
  function Steps(r: nat, n: nat, s: State, x: seq<bv32>): State
    requires |x| == 16
  {
    if n == 0 then s else Step(r, n - 1, Steps(r, n - 1, s, x), x)
  }

  function Rounds(n: nat, s: State, x: seq<bv32>): State
    requires |x| == 16
  {
    if n == 0 then s else Steps(n - 1, 16, Rounds(n - 1, s, x), x)
  }

  /** The registers after a block of 16 words. */
  function Compress(s: State, x: seq<bv32>): State
    requires |x| == 16
  {
    var r := Rounds(4, s, x);
    State(Plus(s.a, r.a), Plus(s.b, r.b), Plus(s.c, r.c), Plus(s.d, r.d))
  }

  // ----- words and bytes, low-order byte first (section 2)

  function Word(b0: byte, b1: byte, b2: byte, b3: byte): bv32 {
    (b0 as bv32) | ((b1 as bv32) << 8) | ((b2 as bv32) << 16) | ((b3 as bv32) << 24)
  }

  function Words(m: seq<byte>, n: nat): (x: seq<bv32>)
    requires |m| >= 4 * n
    ensures |x| == n
  {
    seq(n, i requires 0 <= i < n => Word(m[4 * i], m[4 * i + 1], m[4 * i + 2], m[4 * i + 3]))
  }

  function Bytes(w: bv32): (m: seq<byte>)
    ensures |m| == 4
  {
    [(w & 0xff) as byte, ((w >> 8) & 0xff) as byte, ((w >> 16) & 0xff) as byte, ((w >> 24) & 0xff) as byte]
  }

  // ----- the digest

  /** The registers after the blocks of m. */
  function Chain(s: State, m: seq<byte>): State
    requires |m| % 64 == 0
    decreases |m|
  {
    if m == [] then s else Chain(Compress(s, Words(m[..64], 16)), m[64..])
  }

  /** Step 1 (section 3.1): a one bit, then zeros up to 56 modulo 64. */
  function Padding(len: nat): (p: seq<byte>)
    ensures 1 <= |p| <= 64 && (len + |p|) % 64 == 56
  {
    [0x80] + Zeros((119 - len % 64) % 64)
  }

  function Zeros(n: nat): (z: seq<byte>)
    ensures |z| == n && forall i :: 0 <= i < n ==> z[i] == 0
  {
    seq(n, i => 0)
  }

  /** Step 2 (section 3.2): the length in bits as two words, low-order word first, modulo 2^64. */
  function LengthWords(len: nat): (w: seq<bv32>)
    ensures |w| == 2
  {
    var bits := 8 * len;
    [(bits % 0x1_0000_0000) as bv32, (bits / 0x1_0000_0000 % 0x1_0000_0000) as bv32]
  }

  lemma WholeBlocks(m: nat, p: nat)
    requires (m + p) % 64 == 56
    ensures (m + (p + 8)) % 64 == 0 && m + (p + 8) >= 64
  {}

  function Padded(m: seq<byte>): (p: seq<byte>)
    ensures |p| % 64 == 0 && |p| >= 64
  {
    hide Padding, LengthWords, Bytes;
    var w := LengthWords(|m|);
    var p := Padding(|m|);
    WholeBlocks(|m|, |p|);
    assert |p + Bytes(w[0]) + Bytes(w[1])| == |p| + 8;
    m + (p + Bytes(w[0]) + Bytes(w[1]))
  }

  /** Steps 3 to 5 (sections 3.3 to 3.5). */
  function Digest(m: seq<byte>): (d: seq<byte>)
    ensures |d| == 16
  {
    Output(Chain(IV, Padded(m)))
  }

  function Output(s: State): (d: seq<byte>)
    ensures |d| == 16
  {
    Bytes(s.a) + Bytes(s.b) + Bytes(s.c) + Bytes(s.d)
  }

  lemma {:induction false} ChainAppend(s: State, m: seq<byte>, block: seq<byte>)
    requires |m| % 64 == 0 && |block| == 64
    ensures Chain(s, m + block) == Compress(Chain(s, m), Words(block, 16))
    decreases |m|
  {
    hide Compress, Words;
    if m == [] {
      assert m + block == block && block[..64] == block && block[64..] == [];
    } else {
      assert (m + block)[..64] == m[..64] && (m + block)[64..] == m[64..] + block;
      ChainAppend(Compress(s, Words(m[..64], 16)), m[64..], block);
    }
  }

  lemma WordOfBytes(w: bv32)
    ensures var m := Bytes(w); Word(m[0], m[1], m[2], m[3]) == w
  {}
}

/** The streaming implementation. */
module Md5 {
  import opened Rfc1321

  // ----- the core functions and the central step

  function F1(x: bv32, y: bv32, z: bv32): bv32 { z ^ (x & (y ^ z)) }

  function F2(x: bv32, y: bv32, z: bv32): bv32 { F1(z, x, y) }

  function F3(x: bv32, y: bv32, z: bv32): bv32 { x ^ y ^ z }

  function F4(x: bv32, y: bv32, z: bv32): bv32 { y ^ (x | !z) }

  lemma F1IsF(x: bv32, y: bv32, z: bv32)
    ensures F1(x, y, z) == F(x, y, z)
  {
    assert z ^ (x & (y ^ z)) == (x & y) | (!x & z);
  }

  lemma F2IsG(x: bv32, y: bv32, z: bv32)
    ensures F2(x, y, z) == G(x, y, z)
  {
    assert y ^ (z & (x ^ y)) == (x & z) | (y & !z);
  }

  lemma F3IsH(x: bv32, y: bv32, z: bv32)
    ensures F3(x, y, z) == H(x, y, z)
  {}

  lemma F4IsI(x: bv32, y: bv32, z: bv32)
    ensures F4(x, y, z) == I(x, y, z)
  {}

  /** w += f + data, rotated by shifting both ways, plus x. */
  function MD5Step(f: bv32, w: bv32, x: bv32, data: bv32, s: nat): bv32
    requires 0 < s < 32
  {
    var w1 := Plus(w, Plus(f, data));
    Plus((w1 << s) | (w1 >> (32 - s)), x)
  }

  lemma Rearranged(w: bv32, f: bv32, m: bv32, t: bv32)
    ensures Plus(w, Plus(f, Plus(m, t))) == Plus(Plus(Plus(w, f), m), t)
  {
    hide Plus;
    Associates(f, m, t);
    Associates(w, Plus(f, m), t);
    Associates(w, f, m);
  }

  lemma Associates(x: bv32, y: bv32, z: bv32)
    ensures Plus(x, Plus(y, z)) == Plus(Plus(x, y), z)
  {
    hide Plus;
    PlusAdds(y, z);
    PlusAdds(x, y);
    AddLast(x, y, z, Plus(y, z));
    AddFirst(x, y, z, Plus(x, y));
  }

  lemma PlusAdds(x: bv32, y: bv32)
    ensures Plus(x, y) == x + y
  {}

  lemma AddLast(x: bv32, y: bv32, z: bv32, s: bv32)
    requires s == y + z
    ensures Plus(x, s) == x + y + z
  {}

  lemma AddFirst(x: bv32, y: bv32, z: bv32, s: bv32)
    requires s == x + y
    ensures Plus(s, z) == x + y + z
  {}

  lemma Commutes(x: bv32, y: bv32)
    ensures Plus(x, y) == Plus(y, x)
  {}

  lemma StepRotates(f: bv32, w: bv32, x: bv32, data: bv32, s: nat)
    requires 0 < s < 32
    ensures MD5Step(f, w, x, data, s) == Plus(x, Rotated(Plus(w, Plus(f, data)), s))
  {
    hide Plus;
    Commutes(x, Rotated(Plus(w, Plus(f, data)), s));
  }

  /** The central step is the RFC's step. */
  lemma StepMatches(r: nat, i: nat, s: State, block: seq<bv32>)
    requires |block| == 16
    ensures var op := Listed(r, i);
            Step(r, i, s, block) ==
              State(s.d, MD5Step(Mix(r, s.b, s.c, s.d), s.a, s.b, Plus(block[op.k], op.t), op.s), s.b, s.c)
  {
    hide Mix, Listed, Rotated, MD5Step, Plus;
    var op := Listed(r, i);
    Rearranged(s.a, Mix(r, s.b, s.c, s.d), block[op.k], op.t);
    StepRotates(Mix(r, s.b, s.c, s.d), s.a, s.b, Plus(block[op.k], op.t), op.s);
  }

  method Step1(ghost i: nat, w: bv32, x: bv32, y: bv32, z: bv32, k: nat, t: bv32, s: nat, ghost s0: State,
               block: seq<bv32>)
    returns (w': bv32)
    requires i < 16 && |block| == 16 && State(w, x, y, z) == Steps(0, i, s0, block)
    requires Operations1(i) == Operation(k, s, t)
    ensures State(z, w', x, y) == Steps(0, i + 1, s0, block)
  {
    hide MD5Step, Operations1, Operations2, Operations3, Operations4, Plus, F1, F2, F3, F4, F, G, H, I, Step;
    w' := MD5Step(F1(x, y, z), w, x, Plus(block[k], t), s);
    F1IsF(x, y, z);
    StepMatches(0, i, State(w, x, y, z), block);
  }

  method Step2(ghost i: nat, w: bv32, x: bv32, y: bv32, z: bv32, k: nat, t: bv32, s: nat, ghost s0: State,
               block: seq<bv32>)
    returns (w': bv32)
    requires i < 16 && |block| == 16 && State(w, x, y, z) == Steps(1, i, s0, block)
    requires Operations2(i) == Operation(k, s, t)
    ensures State(z, w', x, y) == Steps(1, i + 1, s0, block)
  {
    hide MD5Step, Operations1, Operations2, Operations3, Operations4, Plus, F1, F2, F3, F4, F, G, H, I, Step;
    w' := MD5Step(F2(x, y, z), w, x, Plus(block[k], t), s);
    F2IsG(x, y, z);
    StepMatches(1, i, State(w, x, y, z), block);
  }

  method Step3(ghost i: nat, w: bv32, x: bv32, y: bv32, z: bv32, k: nat, t: bv32, s: nat, ghost s0: State,
               block: seq<bv32>)
    returns (w': bv32)
    requires i < 16 && |block| == 16 && State(w, x, y, z) == Steps(2, i, s0, block)
    requires Operations3(i) == Operation(k, s, t)
    ensures State(z, w', x, y) == Steps(2, i + 1, s0, block)
  {
    hide MD5Step, Operations1, Operations2, Operations3, Operations4, Plus, F1, F2, F3, F4, F, G, H, I, Step;
    w' := MD5Step(F3(x, y, z), w, x, Plus(block[k], t), s);
    F3IsH(x, y, z);
    StepMatches(2, i, State(w, x, y, z), block);
  }

  method Step4(ghost i: nat, w: bv32, x: bv32, y: bv32, z: bv32, k: nat, t: bv32, s: nat, ghost s0: State,
               block: seq<bv32>)
    returns (w': bv32)
    requires i < 16 && |block| == 16 && State(w, x, y, z) == Steps(3, i, s0, block)
    requires Operations4(i) == Operation(k, s, t)
    ensures State(z, w', x, y) == Steps(3, i + 1, s0, block)
  {
    hide MD5Step, Operations1, Operations2, Operations3, Operations4, Plus, F1, F2, F3, F4, F, G, H, I, Step;
    w' := MD5Step(F4(x, y, z), w, x, Plus(block[k], t), s);
    F4IsI(x, y, z);
    StepMatches(3, i, State(w, x, y, z), block);
  }

  method Round1(a0: bv32, b0: bv32, c0: bv32, d0: bv32, x: seq<bv32>, ghost s0: State)
    returns (a: bv32, b: bv32, c: bv32, d: bv32)
    requires |x| == 16 && State(a0, b0, c0, d0) == Steps(0, 0, s0, x)
    ensures State(a, b, c, d) == Steps(0, 16, s0, x)
  {
    hide Steps, Step, Plus;
    a, b, c, d := a0, b0, c0, d0;
    a := Step1(0, a, b, c, d, 0, 0xd76aa478, 7, s0, x);
    d := Step1(1, d, a, b, c, 1, 0xe8c7b756, 12, s0, x);
    c := Step1(2, c, d, a, b, 2, 0x242070db, 17, s0, x);
    b := Step1(3, b, c, d, a, 3, 0xc1bdceee, 22, s0, x);
    a := Step1(4, a, b, c, d, 4, 0xf57c0faf, 7, s0, x);
    d := Step1(5, d, a, b, c, 5, 0x4787c62a, 12, s0, x);
    c := Step1(6, c, d, a, b, 6, 0xa8304613, 17, s0, x);
    b := Step1(7, b, c, d, a, 7, 0xfd469501, 22, s0, x);
    a := Step1(8, a, b, c, d, 8, 0x698098d8, 7, s0, x);
    d := Step1(9, d, a, b, c, 9, 0x8b44f7af, 12, s0, x);
    c := Step1(10, c, d, a, b, 10, 0xffff5bb1, 17, s0, x);
    b := Step1(11, b, c, d, a, 11, 0x895cd7be, 22, s0, x);
    a := Step1(12, a, b, c, d, 12, 0x6b901122, 7, s0, x);
    d := Step1(13, d, a, b, c, 13, 0xfd987193, 12, s0, x);
    c := Step1(14, c, d, a, b, 14, 0xa679438e, 17, s0, x);
    b := Step1(15, b, c, d, a, 15, 0x49b40821, 22, s0, x);
  }

  method Round2(a0: bv32, b0: bv32, c0: bv32, d0: bv32, x: seq<bv32>, ghost s0: State)
    returns (a: bv32, b: bv32, c: bv32, d: bv32)
    requires |x| == 16 && State(a0, b0, c0, d0) == Steps(1, 0, s0, x)
    ensures State(a, b, c, d) == Steps(1, 16, s0, x)
  {
    hide Steps, Step, Plus;
    a, b, c, d := a0, b0, c0, d0;
    a := Step2(0, a, b, c, d, 1, 0xf61e2562, 5, s0, x);
    d := Step2(1, d, a, b, c, 6, 0xc040b340, 9, s0, x);
    c := Step2(2, c, d, a, b, 11, 0x265e5a51, 14, s0, x);
    b := Step2(3, b, c, d, a, 0, 0xe9b6c7aa, 20, s0, x);
    a := Step2(4, a, b, c, d, 5, 0xd62f105d, 5, s0, x);
    d := Step2(5, d, a, b, c, 10, 0x02441453, 9, s0, x);
    c := Step2(6, c, d, a, b, 15, 0xd8a1e681, 14, s0, x);
    b := Step2(7, b, c, d, a, 4, 0xe7d3fbc8, 20, s0, x);
    a := Step2(8, a, b, c, d, 9, 0x21e1cde6, 5, s0, x);
    d := Step2(9, d, a, b, c, 14, 0xc33707d6, 9, s0, x);
    c := Step2(10, c, d, a, b, 3, 0xf4d50d87, 14, s0, x);
    b := Step2(11, b, c, d, a, 8, 0x455a14ed, 20, s0, x);
    a := Step2(12, a, b, c, d, 13, 0xa9e3e905, 5, s0, x);
    d := Step2(13, d, a, b, c, 2, 0xfcefa3f8, 9, s0, x);
    c := Step2(14, c, d, a, b, 7, 0x676f02d9, 14, s0, x);
    b := Step2(15, b, c, d, a, 12, 0x8d2a4c8a, 20, s0, x);
  }

  method Round3(a0: bv32, b0: bv32, c0: bv32, d0: bv32, x: seq<bv32>, ghost s0: State)
    returns (a: bv32, b: bv32, c: bv32, d: bv32)
    requires |x| == 16 && State(a0, b0, c0, d0) == Steps(2, 0, s0, x)
    ensures State(a, b, c, d) == Steps(2, 16, s0, x)
  {
    hide Steps, Step, Plus;
    a, b, c, d := a0, b0, c0, d0;
    a := Step3(0, a, b, c, d, 5, 0xfffa3942, 4, s0, x);
    d := Step3(1, d, a, b, c, 8, 0x8771f681, 11, s0, x);
    c := Step3(2, c, d, a, b, 11, 0x6d9d6122, 16, s0, x);
    b := Step3(3, b, c, d, a, 14, 0xfde5380c, 23, s0, x);
    a := Step3(4, a, b, c, d, 1, 0xa4beea44, 4, s0, x);
    d := Step3(5, d, a, b, c, 4, 0x4bdecfa9, 11, s0, x);
    c := Step3(6, c, d, a, b, 7, 0xf6bb4b60, 16, s0, x);
    b := Step3(7, b, c, d, a, 10, 0xbebfbc70, 23, s0, x);
    a := Step3(8, a, b, c, d, 13, 0x289b7ec6, 4, s0, x);
    d := Step3(9, d, a, b, c, 0, 0xeaa127fa, 11, s0, x);
    c := Step3(10, c, d, a, b, 3, 0xd4ef3085, 16, s0, x);
    b := Step3(11, b, c, d, a, 6, 0x04881d05, 23, s0, x);
    a := Step3(12, a, b, c, d, 9, 0xd9d4d039, 4, s0, x);
    d := Step3(13, d, a, b, c, 12, 0xe6db99e5, 11, s0, x);
    c := Step3(14, c, d, a, b, 15, 0x1fa27cf8, 16, s0, x);
    b := Step3(15, b, c, d, a, 2, 0xc4ac5665, 23, s0, x);
  }

  method Round4(a0: bv32, b0: bv32, c0: bv32, d0: bv32, x: seq<bv32>, ghost s0: State)
    returns (a: bv32, b: bv32, c: bv32, d: bv32)
    requires |x| == 16 && State(a0, b0, c0, d0) == Steps(3, 0, s0, x)
    ensures State(a, b, c, d) == Steps(3, 16, s0, x)
  {
    hide Steps, Step, Plus;
    a, b, c, d := a0, b0, c0, d0;
    a := Step4(0, a, b, c, d, 0, 0xf4292244, 6, s0, x);
    d := Step4(1, d, a, b, c, 7, 0x432aff97, 10, s0, x);
    c := Step4(2, c, d, a, b, 14, 0xab9423a7, 15, s0, x);
    b := Step4(3, b, c, d, a, 5, 0xfc93a039, 21, s0, x);
    a := Step4(4, a, b, c, d, 12, 0x655b59c3, 6, s0, x);
    d := Step4(5, d, a, b, c, 3, 0x8f0ccc92, 10, s0, x);
    c := Step4(6, c, d, a, b, 10, 0xffeff47d, 15, s0, x);
    b := Step4(7, b, c, d, a, 1, 0x85845dd1, 21, s0, x);
    a := Step4(8, a, b, c, d, 8, 0x6fa87e4f, 6, s0, x);
    d := Step4(9, d, a, b, c, 15, 0xfe2ce6e0, 10, s0, x);
    c := Step4(10, c, d, a, b, 6, 0xa3014314, 15, s0, x);
    b := Step4(11, b, c, d, a, 13, 0x4e0811a1, 21, s0, x);
    a := Step4(12, a, b, c, d, 4, 0xf7537e82, 6, s0, x);
    d := Step4(13, d, a, b, c, 11, 0xbd3af235, 10, s0, x);
    c := Step4(14, c, d, a, b, 2, 0x2ad7d2bb, 15, s0, x);
    b := Step4(15, b, c, d, a, 9, 0xeb86d391, 21, s0, x);
  }

  // ----- the context

  /** The registers held in an array. */
  function StateOf(buf: array<bv32>): State
    requires buf.Length == 4
    reads buf
  {
    State(buf[0], buf[1], buf[2], buf[3])
  }

  /** The words of a buffer, from its bytes. */
  method ByteReverse(buf: array<byte>, longs: nat) returns (words: seq<bv32>)
    requires 0 < longs && buf.Length >= 4 * longs
    ensures words == Words(buf[..4 * longs], longs)
  {
    words := [];
    for i := 0 to longs
      invariant words == Words(buf[..4 * longs], longs)[..i]
    {
      var p := 4 * i;
      var t := (((buf[p + 3] as bv32 << 8) | buf[p + 2] as bv32) << 16) | ((buf[p + 1] as bv32 << 8) | buf[p] as bv32);
      WordMatches(buf[p], buf[p + 1], buf[p + 2], buf[p + 3]);
      words := words + [t];
    }
  }

  lemma WordMatches(b0: byte, b1: byte, b2: byte, b3: byte)
    ensures (((b3 as bv32 << 8) | b2 as bv32) << 16) | ((b1 as bv32 << 8) | b0 as bv32) == Word(b0, b1, b2, b3)
  {}

  method MD5Transform(buf: array<bv32>, x: seq<bv32>)
    requires buf.Length == 4 && |x| == 16
    modifies buf
    ensures StateOf(buf) == Compress(old(StateOf(buf)), x)
  {
    hide Steps, Rounds, Plus, Compress;
    ghost var s0 := StateOf(buf);
    RoundsInTurn(s0, x);
    var a, b, c, d := Round1(buf[0], buf[1], buf[2], buf[3], x, s0);
    a, b, c, d := Round2(a, b, c, d, x, Rounds(1, s0, x));
    a, b, c, d := Round3(a, b, c, d, x, Rounds(2, s0, x));
    a, b, c, d := Round4(a, b, c, d, x, Rounds(3, s0, x));
    buf[0] := Plus(buf[0], a);
    buf[1] := Plus(buf[1], b);
    buf[2] := Plus(buf[2], c);
    buf[3] := Plus(buf[3], d);
  }

  lemma RoundsInTurn(s: State, x: seq<bv32>)
    requires |x| == 16
    ensures Rounds(0, s, x) == s && forall r: nat :: Rounds(r + 1, s, x) == Steps(r, 16, Rounds(r, s, x), x)
    ensures forall r: nat, t :: Steps(r, 0, t, x) == t
    ensures var r := Rounds(4, s, x);
            Compress(s, x) == State(Plus(s.a, r.a), Plus(s.b, r.b), Plus(s.c, r.c), Plus(s.d, r.d))
  {
    hide Step, Plus;
  }

  // ----- streaming

  const TWO32 := 0x1_0000_0000

  type Uint32 = x: nat | x < TWO32

  /** The two counters hold the number of bits in n bytes, modulo 2^64. */
  ghost predicate Counts(bits0: Uint32, bits1: Uint32, n: nat) {
    bits0 + TWO32 * bits1 == 8 * n % (TWO32 * TWO32)
  }

  /** The registers have taken in the whole blocks of m, and the buffer starts with what is left over. */
  ghost predicate Absorbed(s: State, bytes: seq<byte>, m: seq<byte>) {
    var r := |m| % 64;
    && s == Chain(IV, m[..|m| - r])
    && |bytes| == 64 && bytes[..r] == m[|m| - r..]
  }

  class MD5Context {
    const buf: array<bv32>
    const bytes: array<byte>
    var bits0: Uint32
    var bits1: Uint32

    /** The message so far. */
    ghost var seen: seq<byte>

    ghost predicate Valid()
      reads this, buf, bytes
    {
      && buf.Length == 4 && bytes.Length == 64
      && Counts(bits0, bits1, |seen|) && Absorbed(StateOf(buf), bytes[..], seen)
    }

    /** Initial registers; nothing counted. */
    constructor MD5Init()
      ensures Valid() && seen == [] && fresh(buf) && fresh(bytes)
    {
      buf := new bv32[4];
      bytes := new byte[64];
      bits0, bits1 := 0, 0;
      seen := [];
      new;
      buf[0] := 0x67452301;
      buf[1] := 0xefcdab89;
      buf[2] := 0x98badcfe;
      buf[3] := 0x10325476;
    }

    /** Adds to the bit count, with a carry from low to high; t is the number of bytes left over before. */
    method CountBits(len: Uint32) returns (t: nat)
      requires Counts(bits0, bits1, |seen|)
      modifies `bits0, `bits1
      ensures Counts(bits0, bits1, |seen| + len) && t == |seen| % 64
    {
      LeftOverCount(bits0, bits1, |seen|);
      CarryIsRight(bits0, bits1, len, |seen|);
      hide Counts;
      t := bits0;
      bits0 := (t + len * 8 % TWO32) % TWO32;
      if bits0 < t {
        bits1 := (bits1 + 1) % TWO32;
      }
      bits1 := (bits1 + len / 0x2000_0000) % TWO32;
      t := t / 8 % 64;
    }

    /** Takes in more of the message. */
    method MD5Update(data: seq<byte>)
      requires Valid() && |data| < TWO32
      modifies this, buf, bytes
      ensures Valid() && seen == old(seen) + data
    {
      hide Absorbed, Counts, Chain;
      var t := CountBits(|data|);
      var rest := data;
      if t != 0 {
        if |data| < 64 - t {
          StillPartial(StateOf(buf), bytes[..], seen, data);
          Memmove(bytes, t, data);
          seen := seen + data;
          return;
        }
        FillBlock(t, data[..64 - t]);
        rest := data[64 - t..];
        assert old(seen) + data == seen + rest;
      } else {
        NothingLeftOver(StateOf(buf), bytes[..], seen);
        assert old(seen) + data == seen + rest;
      }
      AbsorbBlocks(rest, old(seen) + data);
    }

    /** Completes a block that already holds t bytes. */
    method FillBlock(t: nat, data: seq<byte>)
      requires buf.Length == 4 && bytes.Length == 64 && Absorbed(StateOf(buf), bytes[..], seen)
      requires t == |seen| % 64 && t + |data| == 64
      modifies `seen, buf, bytes
      ensures seen == old(seen) + data && |seen| % 64 == 0 && StateOf(buf) == Chain(IV, seen)
    {
      CompleteBlock(StateOf(buf), bytes[..], seen, data);
      hide Absorbed, Chain;
      Memmove(bytes, t, data);
      seen := seen + data;
      Digested();
    }

    /** Takes in the rest of the data, block by block, and keeps what is left over. */
    method AbsorbBlocks(data: seq<byte>, ghost m: seq<byte>)
      requires buf.Length == 4 && bytes.Length == 64
      requires |seen| % 64 == 0 && StateOf(buf) == Chain(IV, seen) && seen + data == m
      modifies `seen, buf, bytes
      ensures Absorbed(StateOf(buf), bytes[..], seen) && seen == m
    {
      hide Absorbed, Chain;
      var rest := data;
      while |rest| >= 64
        invariant |seen| % 64 == 0 && StateOf(buf) == Chain(IV, seen) && seen + rest == m
      {
        NextBlock(rest[..64]);
        rest := rest[64..];
      }
      LeftOver(StateOf(buf), bytes[..], seen, rest);
      Memmove(bytes, 0, rest);
      seen := seen + rest;
    }

    method NextBlock(block: seq<byte>)
      requires buf.Length == 4 && bytes.Length == 64 && |block| == 64
      requires |seen| % 64 == 0 && StateOf(buf) == Chain(IV, seen)
      modifies `seen, buf, bytes
      ensures seen == old(seen) + block && |seen| % 64 == 0 && StateOf(buf) == Chain(IV, seen)
    {
      hide Chain, Compress, Words;
      ChainAppend(IV, seen, block);
      RemainderGrows(|seen|, 64);
      Load(block);
      seen := seen + block;
      Digested();
    }

    method Load(block: seq<byte>)
      requires bytes.Length == 64 && |block| == 64
      modifies bytes
      ensures bytes[..] == block
    {
      Memmove(bytes, 0, block);
      assert bytes[..] == block;
    }

    /** Pads, appends the length and returns the digest; the context is wiped. */
    method MD5Final() returns (digest: seq<byte>)
      requires Valid()
      modifies this, buf, bytes
      ensures digest == Digest(old(seen))
      ensures StateOf(buf) == State(0, 0, 0, 0) && bytes[..] == Zeros(64) && bits0 == bits1 == 0
    {
      hide Absorbed, Counts, Padded, BeforeLast, LastWithoutLength, Chain, Words, Compress, Output, LengthWords;
      LeftOverCount(bits0, bits1, |seen|);
      Pad(bits0 / 8 % 64);
      var words := ByteReverse(bytes, 14);
      words := words + [bits0 as bv32, bits1 as bv32];
      LastBlock(bytes[..56], bits0, bits1, seen);
      MD5Transform(buf, words);
      digest := Bytes(buf[0]) + Bytes(buf[1]) + Bytes(buf[2]) + Bytes(buf[3]);
      OutputOf(StateOf(buf));
      Wipe();
    }

    /** Sets the byte after the message to 0x80 and zeros the rest of the block, up to the length; a block
        without room for the length is hashed and another one filled. */
    method Pad(count: nat)
      requires buf.Length == 4 && bytes.Length == 64 && Absorbed(StateOf(buf), bytes[..], seen) && count == |seen| % 64
      modifies buf, bytes
      ensures StateOf(buf) == Chain(IV, BeforeLast(seen)) && bytes[..56] == LastWithoutLength(seen)
    {
      hide BeforeLast, LastWithoutLength, Chain, Absorbed, Compress, Words, Zeros;
      assert bytes[..][..count] == bytes[..count];
      if 64 - 1 - count < 8 {
        TwoPaddedBlocks(StateOf(buf), bytes[..], seen, count);
        MarkAndHash(count);
      } else {
        OnePaddedBlock(StateOf(buf), bytes[..], seen, count);
        Mark(count, 64 - 1 - count - 8);
      }
    }

    method MarkAndHash(count: nat)
      requires buf.Length == 4 && bytes.Length == 64 && count < 64
      modifies buf, bytes
      ensures StateOf(buf) == Compress(old(StateOf(buf)), Words(old(bytes[..count]) + [0x80] + Zeros(63 - count), 16))
      ensures bytes[..56] == Zeros(56)
    {
      hide Compress, Words, Zeros;
      Mark(count, 64 - 1 - count);
      Digested();
      ClearFront();
    }

    method ClearFront()
      requires bytes.Length == 64
      modifies bytes
      ensures bytes[..56] == Zeros(56)
    {
      Memset(bytes, 0, 56);
      assert bytes[..56] == Zeros(56);
    }

    /** The first byte of the padding, and n zeros. */
    method Mark(count: nat, n: nat)
      requires bytes.Length == 64 && (count + 1 + n == 64 || count + 1 + n == 56)
      modifies bytes
      ensures bytes[..count + 1 + n] == old(bytes[..count]) + [0x80] + Zeros(n)
      ensures count + 1 + n == 64 ==> bytes[..] == old(bytes[..count]) + [0x80] + Zeros(n)
    {
      bytes[count] := 0x80;
      assert bytes[..count + 1] == old(bytes[..count]) + [0x80];
      Memset(bytes, count + 1, n);
    }

    method Wipe()
      requires buf.Length == 4 && bytes.Length == 64
      modifies this, buf, bytes
      ensures StateOf(buf) == State(0, 0, 0, 0) && bytes[..] == Zeros(64) && bits0 == bits1 == 0
    {
      buf[0], buf[1], buf[2], buf[3] := 0, 0, 0, 0;
      bits0, bits1 := 0, 0;
      Memset(bytes, 0, 64);
      assert bytes[..] == Zeros(64);
    }

    /** Hashes the full buffer into the registers. */
    method Digested()
      requires buf.Length == 4 && bytes.Length == 64
      modifies buf
      ensures StateOf(buf) == Compress(old(StateOf(buf)), Words(bytes[..], 16))
    {
      hide Compress;
      var words := ByteReverse(bytes, 16);
      assert bytes[..64] == bytes[..];
      MD5Transform(buf, words);
    }
  }

  /** How the counters stand for the count, with k times 2^64 dropped. */
  lemma CountsMeans(bits0: Uint32, bits1: Uint32, n: nat) returns (k: nat)
    requires Counts(bits0, bits1, n)
    ensures 8 * n == bits0 + 0x1_0000_0000 * bits1 + 0x1_0000_0000_0000_0000 * k
  {
    k := 8 * n / 0x1_0000_0000_0000_0000;
  }

  lemma CountsIf(bits0: Uint32, bits1: Uint32, n: nat, k: nat)
    requires 8 * n == bits0 + 0x1_0000_0000 * bits1 + 0x1_0000_0000_0000_0000 * k
    ensures Counts(bits0, bits1, n)
  {
    Remainder(8 * n, bits0 + 0x1_0000_0000 * bits1, k);
  }

  lemma Remainder(n: nat, r: nat, k: nat)
    requires r < 0x1_0000_0000_0000_0000 && n == r + 0x1_0000_0000_0000_0000 * k
    ensures n % 0x1_0000_0000_0000_0000 == r
  {}

  /** The new low counter, whether it wrapped, and how the whole shift by three splits. */
  lemma LowAndCarry(bits0: Uint32, len: Uint32)
    ensures var lo := (bits0 + len * 8 % TWO32) % TWO32;
            bits0 + 8 * len == lo + TWO32 * (len / 0x2000_0000 + if lo < bits0 then 1 else 0)
  {
    assert len * 8 % TWO32 == 8 * len - TWO32 * (len / 0x2000_0000);
  }

  lemma WrapTwice(x: nat, y: nat)
    ensures (x % TWO32 + y) % TWO32 == (x + y) % TWO32
  {}

  lemma LeftOverCount(bits0: Uint32, bits1: Uint32, n: nat)
    requires Counts(bits0, bits1, n)
    ensures bits0 / 8 % 64 == n % 64
  {
    var k := CountsMeans(bits0, bits1, n);
    SameLeftOver(n, bits0 / 8, 0x80_0000 * bits1 + 0x80_0000_0000_0000 * k);
  }

  lemma SameLeftOver(n: nat, m: nat, q: nat)
    requires n == m + 64 * q
    ensures n % 64 == m % 64
  {}

  lemma CarryIsRight(bits0: Uint32, bits1: Uint32, len: Uint32, n: nat)
    requires Counts(bits0, bits1, n)
    ensures var lo := (bits0 + len * 8 % TWO32) % TWO32;
            var hi := ((if lo < bits0 then (bits1 + 1) % TWO32 else bits1) + len / 0x2000_0000) % TWO32;
            Counts(lo, hi, n + len)
  {
    var k := CountsMeans(bits0, bits1, n);
    LowAndCarry(bits0, len);
    var lo := (bits0 + len * 8 % TWO32) % TWO32;
    var c := if lo < bits0 then 1 else 0;
    var more := len / 0x2000_0000;
    WrapTwice(bits1 + 1, more);
    NewCounts(bits0, bits1, len, n, k, lo, c + more);
  }

  lemma NewCounts(bits0: Uint32, bits1: Uint32, len: Uint32, n: nat, k: nat, lo: Uint32, carry: nat)
    requires 8 * n == bits0 + 0x1_0000_0000 * bits1 + 0x1_0000_0000_0000_0000 * k
    requires bits0 + 8 * len == lo + TWO32 * carry
    ensures Counts(lo, (bits1 + carry) % TWO32, n + len)
  {
    CountsIf(lo, (bits1 + carry) % TWO32, n + len, k + (bits1 + carry) / TWO32);
  }

  /** Writes src over dst from position at on. */
  method Memmove(dst: array<byte>, at: nat, src: seq<byte>)
    requires at + |src| <= dst.Length
    modifies dst
    ensures dst[..] == old(dst[..at]) + src + old(dst[at + |src|..])
  {
    for i := 0 to |src|
      invariant dst[..at + i] == old(dst[..at]) + src[..i] && dst[at + i..] == old(dst[at + i..])
    {
      ghost var before := dst[..at + i];
      dst[at + i] := src[i];
      assert dst[..at + i + 1] == before + [src[i]];
    }
    assert dst[..] == dst[..at + |src|] + dst[at + |src|..];
  }

  /** Zeros n bytes from position at on. */
  method Memset(dst: array<byte>, at: nat, n: nat)
    requires at + n <= dst.Length
    modifies dst
    ensures dst[..] == old(dst[..at]) + Zeros(n) + old(dst[at + n..])
  {
    Memmove(dst, at, Zeros(n));
  }

  lemma RemainderGrows(n: nat, d: nat)
    ensures n % 64 + d < 64 ==> (n + d) % 64 == n % 64 + d
    ensures n % 64 + d == 64 ==> (n + d) % 64 == 0
    ensures (n - n % 64) % 64 == 0
  {}

  lemma StillPartial(s: State, bytes: seq<byte>, m: seq<byte>, data: seq<byte>)
    requires Absorbed(s, bytes, m) && |m| % 64 + |data| < 64
    ensures Absorbed(s, bytes[..|m| % 64] + data + bytes[|m| % 64 + |data|..], m + data)
  {
    hide Chain;
    var r := |m| % 64;
    RemainderGrows(|m|, |data|);
    assert (m + data)[..|m| - r] == m[..|m| - r];
    assert (m + data)[|m| - r..] == m[|m| - r..] + data;
  }

  lemma CompleteBlock(s: State, bytes: seq<byte>, m: seq<byte>, data: seq<byte>)
    requires Absorbed(s, bytes, m) && |m| % 64 + |data| == 64
    ensures |m + data| % 64 == 0
    ensures var block := bytes[..|m| % 64] + data + bytes[|m| % 64 + |data|..];
            |block| == 64 && Chain(IV, m + data) == Compress(s, Words(block, 16))
  {
    hide Chain, Compress, Words;
    var r := |m| % 64;
    RemainderGrows(|m|, |data|);
    var block := bytes[..r] + data + bytes[r + |data|..];
    var whole := m[..|m| - r];
    assert m == whole + bytes[..r];
    assert m + data == whole + block;
    ChainAppend(IV, whole, block);
  }

  lemma NothingLeftOver(s: State, bytes: seq<byte>, m: seq<byte>)
    requires Absorbed(s, bytes, m) && |m| % 64 == 0
    ensures s == Chain(IV, m)
  {
    assert m[..|m|] == m;
  }

  lemma LeftOver(s: State, bytes: seq<byte>, m: seq<byte>, rest: seq<byte>)
    requires |m| % 64 == 0 && s == Chain(IV, m) && |rest| < 64 && |bytes| == 64
    ensures Absorbed(s, rest + bytes[|rest|..], m + rest)
    ensures bytes[..0] + rest + bytes[|rest|..] == rest + bytes[|rest|..]
  {
    hide Chain, Absorbed;
    RemainderAdded(|m|, |rest|);
    Parts(m, rest);
    Parts(rest, bytes[|rest|..]);
    AbsorbedAt(s, rest + bytes[|rest|..], m + rest, |rest|);
  }

  lemma AbsorbedAt(s: State, bytes: seq<byte>, m: seq<byte>, r: nat)
    requires r == |m| % 64 && (|m| - r) % 64 == 0 && s == Chain(IV, m[..|m| - r])
    requires |bytes| == 64 && bytes[..r] == m[|m| - r..]
    ensures Absorbed(s, bytes, m)
  {
    hide Chain;
  }

  lemma RemainderAdded(n: nat, d: nat)
    requires n % 64 == 0 && d < 64
    ensures (n + d) % 64 == d
  {}

  lemma Parts(a: seq<byte>, b: seq<byte>)
    ensures (a + b)[..|a|] == a && (a + b)[|a|..] == b
  {}

  /** The padded message but for its last block. */
  ghost function BeforeLast(m: seq<byte>): (p: seq<byte>)
    ensures |p| % 64 == 0
  {
    hide Padded;
    var p := Padded(m);
    OneBlockLess(|p|);
    p[..|p| - 64]
  }

  lemma OneBlockLess(n: nat)
    requires n % 64 == 0 && n >= 64
    ensures (n - 64) % 64 == 0
  {}

  /** The last block of the padded message but for the length. */
  ghost function LastWithoutLength(m: seq<byte>): (p: seq<byte>)
    ensures |p| == 56
  {
    hide Padded;
    var p := Padded(m);
    p[|p| - 64..|p| - 8]
  }

  lemma PaddingIs(n: nat)
    ensures n % 64 <= 55 ==> Padding(n) == [0x80] + Zeros(55 - n % 64)
    ensures n % 64 > 55 ==> Padding(n) == [0x80] + Zeros(119 - n % 64)
  {}

  /** When the length still fits behind the message, its padding is in the last block. */
  lemma OnePaddedBlock(s: State, bytes: seq<byte>, m: seq<byte>, r: nat)
    requires Absorbed(s, bytes, m) && r == |m| % 64 <= 55
    ensures s == Chain(IV, BeforeLast(m)) && LastWithoutLength(m) == bytes[..r] + [0x80] + Zeros(55 - r)
  {
    hide Chain, BeforeLast, LastWithoutLength, Zeros;
    assert m == m[..|m| - r] + bytes[..r];
    PaddedTail(m, m[..|m| - r], bytes[..r], Zeros(55 - r), []);
  }

  /** Otherwise the padding takes a block more. */
  lemma TwoPaddedBlocks(s: State, bytes: seq<byte>, m: seq<byte>, r: nat)
    requires Absorbed(s, bytes, m) && r == |m| % 64 > 55
    ensures Compress(s, Words(bytes[..r] + [0x80] + Zeros(63 - r), 16)) == Chain(IV, BeforeLast(m))
    ensures LastWithoutLength(m) == Zeros(56)
  {
    RemainderGrows(|m|, 0);
    hide Chain, BeforeLast, LastWithoutLength, Compress, Words;
    assert m == m[..|m| - r] + bytes[..r];
    PaddedTail(m, m[..|m| - r], bytes[..r], Zeros(63 - r), Zeros(56));
    ChainAppend(IV, m[..|m| - r], bytes[..r] + [0x80] + Zeros(63 - r));
  }

  /** The last blocks, given the zeros that fill the block of the message and those of a block after it, if any. */
  lemma PaddedTail(m: seq<byte>, whole: seq<byte>, tail: seq<byte>, zeros: seq<byte>, more: seq<byte>)
    requires m == whole + tail && |tail| == |m| % 64
    requires if |tail| <= 55 then zeros == Zeros(55 - |tail|) && more == []
             else zeros == Zeros(63 - |tail|) && more == Zeros(56)
    ensures |tail| <= 55 ==> BeforeLast(m) == whole && LastWithoutLength(m) == tail + [0x80] + zeros
    ensures |tail| > 55 ==> BeforeLast(m) == whole + (tail + [0x80] + zeros) && LastWithoutLength(m) == more
  {
    PaddingIs(|m|);
    assert |tail| > 55 ==> Zeros(119 - |tail|) == zeros + more;
    hide LengthWords, Bytes, Padding, Zeros;
    var w := LengthWords(|m|);
    Regroup(whole, tail, [0x80], zeros + more, Bytes(w[0]), Bytes(w[1]));
    assert zeros + [] == zeros;
    var block := tail + [0x80] + zeros;
    if |tail| <= 55 {
      LastBlockOf(whole, block, Bytes(w[0]) + Bytes(w[1]), Padded(m));
    } else {
      assert whole + (tail + [0x80] + (zeros + more)) == whole + block + more;
      LastBlockOf(whole + block, more, Bytes(w[0]) + Bytes(w[1]), Padded(m));
    }
  }

  lemma Regroup(whole: seq<byte>, tail: seq<byte>, mark: seq<byte>, zeros: seq<byte>, b0: seq<byte>, b1: seq<byte>)
    ensures whole + tail + (mark + zeros + b0 + b1) == whole + (tail + mark + zeros) + (b0 + b1)
  {}

  lemma LastBlockOf(whole: seq<byte>, last: seq<byte>, length: seq<byte>, p: seq<byte>)
    requires p == whole + last + length && |last| == 56 && |length| == 8
    ensures p[..|p| - 64] == whole && p[|p| - 64..|p| - 8] == last
  {}

  /** The block with the counters behind its first 56 bytes completes the padded message. */
  lemma LastBlock(first: seq<byte>, bits0: Uint32, bits1: Uint32, m: seq<byte>)
    requires Counts(bits0, bits1, |m|) && first == LastWithoutLength(m)
    ensures Compress(Chain(IV, BeforeLast(m)), Words(first, 14) + [bits0 as bv32, bits1 as bv32]) ==
            Chain(IV, Padded(m))
  {
    hide Compress, Chain, Words;
    var w := LengthWords(|m|);
    CountsAreLength(bits0, bits1, |m|);
    EndsWithLength(m);
    WordsOfLastBlock(first, w[0], w[1]);
    ChainAppend(IV, BeforeLast(m), first + (Bytes(w[0]) + Bytes(w[1])));
  }

  lemma EndsWithLength(m: seq<byte>)
    ensures var w := LengthWords(|m|);
            Padded(m) == BeforeLast(m) + (LastWithoutLength(m) + (Bytes(w[0]) + Bytes(w[1])))
  {
    var p, w := Padded(m), LengthWords(|m|);
    hide LengthWords;
    assert p[|p| - 8..] == Bytes(w[0]) + Bytes(w[1]);
  }

  lemma CountsAreLength(bits0: Uint32, bits1: Uint32, n: nat)
    requires Counts(bits0, bits1, n)
    ensures LengthWords(n) == [bits0 as bv32, bits1 as bv32]
  {
    var k := CountsMeans(bits0, bits1, n);
    SplitOff(8 * n, bits0, bits1 + TWO32 * k);
    SplitOff(bits1 + TWO32 * k, bits1, k);
  }

  lemma SplitOff(n: nat, low: Uint32, high: nat)
    requires n == low + TWO32 * high
    ensures n % TWO32 == low && n / TWO32 == high
  {}

  lemma WordsOfLastBlock(first: seq<byte>, w0: bv32, w1: bv32)
    requires |first| == 56
    ensures Words(first + (Bytes(w0) + Bytes(w1)), 16) == Words(first, 14) + [w0, w1]
  {
    var block := first + (Bytes(w0) + Bytes(w1));
    WordOfBytes(w0);
    WordOfBytes(w1);
    hide Word, Bytes;
    assert block[56..60] == Bytes(w0) && block[60..64] == Bytes(w1);
  }

  lemma OutputOf(s: State)
    ensures Output(s) == Bytes(s.a) + Bytes(s.b) + Bytes(s.c) + Bytes(s.d)
  {}

  /** The digest of a whole input at once. */
  method MD5(input: seq<byte>) returns (output: seq<byte>)
    requires |input| < TWO32
    ensures output == Digest(input)
  {
    hide Absorbed, Counts, Digest;
    var context := new MD5Context.MD5Init();
    context.MD5Update(input);
    assert context.seen == input;
    output := context.MD5Final();
  }

  function Concat(chunks: seq<seq<byte>>): seq<byte> {
    if chunks == [] then [] else Concat(chunks[..|chunks| - 1]) + chunks[|chunks| - 1]
  }

  /** However a message is split, its digest is the same. */
  method MD5OfChunks(chunks: seq<seq<byte>>) returns (output: seq<byte>)
    requires forall i :: 0 <= i < |chunks| ==> |chunks[i]| < TWO32
    ensures output == Digest(Concat(chunks))
  {
    hide Absorbed, Counts, Digest;
    var context := new MD5Context.MD5Init();
    for i := 0 to |chunks|
      invariant fresh(context) && fresh(context.buf) && fresh(context.bytes)
      invariant context.Valid() && context.seen == Concat(chunks[..i])
    {
      assert chunks[..i + 1][..i] == chunks[..i];
      context.MD5Update(chunks[i]);
    }
    assert chunks[..|chunks|] == chunks;
    output := context.MD5Final();
  }
}
