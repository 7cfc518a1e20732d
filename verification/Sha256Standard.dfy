/** SHA-256 as FIPS 180-4 defines it, over whole messages. Nothing here follows the program:
    it is the reference the streaming code in `Sha256Stream` is proved against. */
module Sha256Standard {
  type Word = bv32
  type Bytes = seq<bv8>
  type Block = b: Bytes | |b| == 64 witness seq(64, _ => 0)

  const U64: nat := 0x1_0000_0000_0000_0000

  /** The eight working variables of section 6.2.2; also a hash value. */
  datatype Vars = Vars(a: Word, b: Word, c: Word, d: Word, e: Word, f: Word, g: Word, h: Word)

  /** Section 3.2: addition modulo 2^32. */
  function Plus(x: Word, y: Word): Word { x + y }

  // Section 4.1.2: the six logical functions.
  function Choose(x: Word, y: Word, z: Word): Word { (x & y) ^ (!x & z) }

  function Majority(x: Word, y: Word, z: Word): Word { (x & y) ^ (x & z) ^ (y & z) }

  function BigSigma0(x: Word): Word { x.RotateRight(2) ^ x.RotateRight(13) ^ x.RotateRight(22) }

  function BigSigma1(x: Word): Word { x.RotateRight(6) ^ x.RotateRight(11) ^ x.RotateRight(25) }

  function SmallSigma0(x: Word): Word { x.RotateRight(7) ^ x.RotateRight(18) ^ (x >> 3) }

  function SmallSigma1(x: Word): Word { x.RotateRight(17) ^ x.RotateRight(19) ^ (x >> 10) }

  // The first sixty-four primes, from which section 4.2.2 and section 5.3.3 derive the constants;
  // `Sha256Primes` shows that they are.
  const PRIMES_0: seq<nat> := [2, 3, 5, 7, 11, 13, 17, 19, 23, 29, 31, 37, 41, 43, 47, 53]
  const PRIMES_1: seq<nat> := [59, 61, 67, 71, 73, 79, 83, 89, 97, 101, 103, 107, 109, 113, 127, 131]
  const PRIMES_2: seq<nat> := [137, 139, 149, 151, 157, 163, 167, 173, 179, 181, 191, 193, 197, 199, 211, 223]
  const PRIMES_3: seq<nat> := [227, 229, 233, 239, 241, 251, 257, 263, 269, 271, 277, 281, 283, 293, 307, 311]

  function Prime(t: nat): nat
    requires t < 64
  {
    if t < 16 then PRIMES_0[t] else if t < 32 then PRIMES_1[t - 16] else if t < 48 then PRIMES_2[t - 32]
    else PRIMES_3[t - 48]
  }

  /** `k` is the first thirty-two bits of the fractional part of the cube root of `p`. */
  ghost predicate IsCubeRootFraction(p: nat, k: nat) {
    k < 0x1_0000_0000 &&
    exists whole: nat :: CubeRootBounds(p, whole * 0x1_0000_0000 + k)
  }

  /** `scaled` is the floor of 2^32 times the cube root of `p`. */
  predicate CubeRootBounds(p: nat, scaled: nat) {
    scaled * scaled * scaled <= p * 0x1_0000_0000_0000_0000_0000_0000 &&
    p * 0x1_0000_0000_0000_0000_0000_0000 < (scaled + 1) * (scaled + 1) * (scaled + 1)
  }

  /** `k` is the first thirty-two bits of the fractional part of the square root of `p`. */
  ghost predicate IsSquareRootFraction(p: nat, k: nat) {
    k < 0x1_0000_0000 &&
    exists whole: nat :: SquareRootBounds(p, whole * 0x1_0000_0000 + k)
  }

  predicate SquareRootBounds(p: nat, scaled: nat) {
    scaled * scaled <= p * 0x1_0000_0000_0000_0000 < (scaled + 1) * (scaled + 1)
  }

  /** Section 3.1: four bytes as a word, the most significant one first. */
  function WordOf(b0: bv8, b1: bv8, b2: bv8, b3: bv8): Word {
    ((b0 as Word * 0x100 + b1 as Word) * 0x100 + b2 as Word) * 0x100 + b3 as Word
  }

  lemma WordOfBytes(b0: bv8, b1: bv8, b2: bv8, b3: bv8)
    ensures var w := WordOf(b0, b1, b2, b3);
            (w >> 24) & 0xff == b0 as Word && (w >> 16) & 0xff == b1 as Word &&
            (w >> 8) & 0xff == b2 as Word && w & 0xff == b3 as Word
  {
  }

  /** Section 5.2.1: word `t` of a message block. */
  function WordAt(m: Block, t: nat): Word
    requires t < 16
  {
    WordOf(m[4 * t], m[4 * t + 1], m[4 * t + 2], m[4 * t + 3])
  }

  /** The bytes of the block stand in its words from the left. */
  lemma BytesOfWord(m: Block, t: nat)
    requires t < 16
    ensures var w := WordAt(m, t);
            (w >> 24) & 0xff == m[4 * t] as Word && (w >> 16) & 0xff == m[4 * t + 1] as Word &&
            (w >> 8) & 0xff == m[4 * t + 2] as Word && w & 0xff == m[4 * t + 3] as Word
  {
    hide WordOf;
    WordOfBytes(m[4 * t], m[4 * t + 1], m[4 * t + 2], m[4 * t + 3]);
  }

  /** Section 6.2.2 step 1: the message schedule. */
  function Schedule(m: Block, t: nat): Word
    requires t < 64
  {
    if t < 16 then WordAt(m, t)
    else
      Plus(Plus(Plus(SmallSigma1(Schedule(m, t - 2)), Schedule(m, t - 7)), SmallSigma0(Schedule(m, t - 15))),
           Schedule(m, t - 16))
  }

  /** Section 6.2.2 step 3: one round. */
  function Round(v: Vars, k: Word, w: Word): Vars {
    var t1 := Plus(Plus(Plus(Plus(v.h, BigSigma1(v.e)), Choose(v.e, v.f, v.g)), k), w);
    var t2 := Plus(BigSigma0(v.a), Majority(v.a, v.b, v.c));
    Vars(Plus(t1, t2), v.a, v.b, v.c, Plus(v.d, t1), v.e, v.f, v.g)
  }

  /** The working variables after the first `t` rounds, with round constants `ks`. */
  function Rounds(v: Vars, ks: seq<Word>, m: Block, t: nat): Vars
    requires t <= |ks| == 64
  {
    if t == 0 then v else Round(Rounds(v, ks, m, t - 1), ks[t - 1], Schedule(m, t - 1))
  }

  function AddVars(x: Vars, y: Vars): Vars {
    Vars(Plus(x.a, y.a), Plus(x.b, y.b), Plus(x.c, y.c), Plus(x.d, y.d),
         Plus(x.e, y.e), Plus(x.f, y.f), Plus(x.g, y.g), Plus(x.h, y.h))
  }

  /** Section 6.2.2 step 4: the intermediate hash value after one more block. */
  function HashBlock(v: Vars, ks: seq<Word>, m: Block): Vars
    requires |ks| == 64
  {
    AddVars(v, Rounds(v, ks, m, 64))
  }

  /** A number of bytes that makes whole blocks. */
  predicate IsWhole(n: nat) {
    n % 64 == 0
  }

  lemma WholeIs(n: nat)
    ensures IsWhole(n + 64) <==> IsWhole(n)
    ensures IsWhole(n) ==> n == 0 || n >= 64
  {
  }

  /** The hash value after all blocks of `bytes`, starting from `init`. */
  function HashBlocks(init: Vars, ks: seq<Word>, bytes: Bytes): Vars
    requires |ks| == 64 && IsWhole(|bytes|)
  {
    hide IsWhole;
    if bytes == [] then init
    else
      WholeIs(|bytes|);
      WholeIs(|bytes| - 64);
      HashBlock(HashBlocks(init, ks, bytes[..|bytes| - 64]), ks, bytes[|bytes| - 64..])
  }

  /** What is left of `n` in a 64-bit field. */
  function Low64(n: nat): nat {
    n % U64
  }

  function Zeros(n: nat): (z: Bytes)
    ensures |z| == n
  {
    seq(n, _ => 0)
  }

  function ToByte(x: nat): bv8
    requires x < 0x100
  {
    x as bv8
  }

  /** The low bytes of a number, `k` of them, most significant byte first. */
  function BigEndian(n: nat, k: nat): (b: Bytes)
    ensures |b| == k
  {
    if k == 0 then [] else BigEndian(n / 0x100, k - 1) + [ToByte(n % 0x100)]
  }

  function BigEndian64(n: nat): (b: Bytes)
    ensures |b| == 8
  {
    BigEndian(n, 8)
  }

  /** Section 5.1.1: appending a one bit and `k` zero bits to `l` bits leaves room for the length field. */
  predicate LeavesLengthField(l: nat, k: nat) {
    (l + 1 + k) % 512 == 448
  }

  /** The number of zero bytes after the `0x80` byte. In bits it is `k = 8 * ZeroBytes + 7`. */
  function ZeroBytes(messageLength: nat): nat {
    (119 - messageLength % 64) % 64
  }

  /** Section 5.1.1 asks for the smallest non-negative such `k`. */
  lemma ZeroBytesIsLeast(messageLength: nat)
    ensures LeavesLengthField(8 * messageLength, 8 * ZeroBytes(messageLength) + 7)
    ensures forall k: nat :: LeavesLengthField(8 * messageLength, k) ==> 8 * ZeroBytes(messageLength) + 7 <= k
  {
    hide ZeroBytes;
    var z := ZeroBytes(messageLength);
    ZeroBytesFillBlock(messageLength);
    EightTimes(messageLength + 1 + z);
    assert (8 * messageLength + 1 + (8 * z + 7)) % 512 == 448;
    forall k: nat | LeavesLengthField(8 * messageLength, k)
      ensures 8 * z + 7 <= k
    {
      if k < 8 * z + 7 {
        SameRemainder(8 * messageLength + 1 + k, 8 * (messageLength + 1 + z));
      }
    }
  }

  lemma EightTimes(n: nat)
    requires n % 64 == 56
    ensures 8 * n % 512 == 448
  {
    assert 8 * n == 512 * (n / 64) + 448;
  }

  lemma SameRemainder(x: nat, y: nat)
    requires x < y < x + 512
    ensures x % 512 != y % 512
  {
  }

  lemma ZeroBytesFillBlock(messageLength: nat)
    ensures ZeroBytes(messageLength) < 64 && (messageLength + 1 + ZeroBytes(messageLength)) % 64 == 56
    ensures IsWhole(messageLength + 1 + ZeroBytes(messageLength) + 8)
  {
  }

  /** Section 5.1.1: the padded message. */
  function Padded(message: Bytes): (p: Bytes)
    ensures IsWhole(|p|)
  {
    hide ZeroBytes, IsWhole, Low64;
    ZeroBytesFillBlock(|message|);
    message + [0x80] + Zeros(ZeroBytes(|message|)) + BigEndian64(Low64(8 * |message|))
  }

  function BigEndian32(w: Word): (b: Bytes)
    ensures |b| == 4
  {
    [(w >> 24) as bv8, ((w >> 16) & 0xff) as bv8, ((w >> 8) & 0xff) as bv8, (w & 0xff) as bv8]
  }

  /** They are the bytes of the word. */
  lemma BigEndian32Is(w: Word)
    ensures var b := BigEndian32(w); WordOf(b[0], b[1], b[2], b[3]) == w
  {
  }

  /** The number that bytes stand for, the most significant one first. */
  function NumberOf(b: Bytes): nat {
    if b == [] then 0 else 0x100 * NumberOf(b[..|b| - 1]) + b[|b| - 1] as nat
  }

  lemma {:induction false} SomeByte(x: nat) returns (b: bv8)
    requires x < 0x100
    ensures b as nat == x
  {
    if x == 0 {
      b := 0;
    } else {
      b := SomeByte(x - 1);
      b := b + 1;
    }
  }

  lemma BackToByte(b: bv8)
    ensures ToByte(b as nat) == b
  {
  }

  lemma ToByteIs(x: nat)
    requires x < 0x100
    ensures ToByte(x) as nat == x
  {
    hide ToByte;
    var b := SomeByte(x);
    BackToByte(b);
  }

  function Pow256(e: nat): (p: nat)
    ensures p > 0
  {
    if e == 0 then 1 else 0x100 * Pow256(e - 1)
  }

  /** They stand for the number, if there are enough of them. */
  lemma {:induction false} BigEndianIs(n: nat, k: nat)
    requires n < Pow256(k)
    ensures NumberOf(BigEndian(n, k)) == n
  {
    hide ToByte;
    if k > 0 {
      BigEndianIs(n / 0x100, k - 1);
      ToByteIs(n % 0x100);
      var b := BigEndian(n, k);
      assert b[..k - 1] == BigEndian(n / 0x100, k - 1);
    }
  }

  /** The length field says the length. */
  lemma BigEndian64Is(n: nat)
    requires n < U64
    ensures NumberOf(BigEndian64(n)) == n
  {
    assert Pow256(8) == U64 by {
      assert Pow256(2) == 0x1_0000 && Pow256(4) == 0x1_0000_0000;
      assert Pow256(6) == 0x1_0000 * Pow256(4) && Pow256(8) == 0x1_0000 * Pow256(6);
    }
    BigEndianIs(n, 8);
  }

  /** The last eight bytes of the padded message say its length in bits. */
  lemma PaddedSaysLength(message: Bytes)
    requires 8 * |message| < U64
    ensures |Padded(message)| >= 8 && NumberOf(Padded(message)[|Padded(message)| - 8..]) == 8 * |message|
  {
    hide BigEndian64, ZeroBytes, NumberOf;
    var front := message + [0x80] + Zeros(ZeroBytes(|message|));
    assert Low64(8 * |message|) == 8 * |message|;
    BigEndian64Is(8 * |message|);
    assert Padded(message)[|front|..] == BigEndian64(8 * |message|);
  }

  function Serialize(v: Vars): (b: Bytes)
    ensures |b| == 32
  {
    BigEndian32(v.a) + BigEndian32(v.b) + BigEndian32(v.c) + BigEndian32(v.d) +
    BigEndian32(v.e) + BigEndian32(v.f) + BigEndian32(v.g) + BigEndian32(v.h)
  }

  /** Section 6.2: the digest of a whole message. */
  function Digest(init: Vars, ks: seq<Word>, message: Bytes): Bytes
    requires |ks| == 64
  {
    Serialize(HashBlocks(init, ks, Padded(message)))
  }
}
