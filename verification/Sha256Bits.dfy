/** The bit functions of src/base/hash_libtomcrypt.cpp, in the form the program computes them.
    `Rot(x, n)` is written out at each use with its literal `n`: `(x >> n) | (x << (32 - n))`. */
module Sha256Bits {
  import opened Sha256Standard

  function Load32(y: Bytes): (r: Word)
    requires |y| == 4
    ensures r == WordOf(y[0], y[1], y[2], y[3])
  {
    LoadIsWord(y[0], y[1], y[2], y[3]);
    (y[0] as Word << 24) | (y[1] as Word << 16) | (y[2] as Word << 8) | (y[3] as Word << 0)
  }

  lemma LoadIsWord(b0: bv8, b1: bv8, b2: bv8, b3: bv8)
    ensures (b0 as Word << 24) | (b1 as Word << 16) | (b2 as Word << 8) | (b3 as Word << 0) == WordOf(b0, b1, b2, b3)
  {
  }

  /** Byte `i` of the four; loading them gives the word back. */
  function Store32Byte(x: Word, i: nat): bv8
    requires i < 4
  {
    (if i == 0 then (x >> 24) & 255 else if i == 1 then (x >> 16) & 255 else if i == 2 then (x >> 8) & 255
     else (x >> 0) & 255) as bv8
  }

  lemma StoreIsBigEndian(x: Word)
    ensures [Store32Byte(x, 0), Store32Byte(x, 1), Store32Byte(x, 2), Store32Byte(x, 3)] == BigEndian32(x)
  {
  }

  function Ch(x: Word, y: Word, z: Word): (r: Word)
    ensures r == Choose(x, y, z)
  {
    ChIsChoose(x, y, z);
    z ^ (x & (y ^ z))
  }

  lemma ChIsChoose(x: Word, y: Word, z: Word)
    ensures z ^ (x & (y ^ z)) == Choose(x, y, z)
  {
  }

  function Maj(x: Word, y: Word, z: Word): (r: Word)
    ensures r == Majority(x, y, z)
  {
    MajIsMajority(x, y, z);
    ((x | y) & z) | (x & y)
  }

  lemma MajIsMajority(x: Word, y: Word, z: Word)
    ensures ((x | y) & z) | (x & y) == Majority(x, y, z)
  {
  }

  function Sigma0(x: Word): (r: Word)
    ensures r == BigSigma0(x)
  {
    ((x >> 2) | (x << 30)) ^ ((x >> 13) | (x << 19)) ^ ((x >> 22) | (x << 10))
  }

  function Sigma1(x: Word): (r: Word)
    ensures r == BigSigma1(x)
  {
    ((x >> 6) | (x << 26)) ^ ((x >> 11) | (x << 21)) ^ ((x >> 25) | (x << 7))
  }

  function Gamma0(x: Word): (r: Word)
    ensures r == SmallSigma0(x)
  {
    ((x >> 7) | (x << 25)) ^ ((x >> 18) | (x << 14)) ^ (x >> 3)
  }

  function Gamma1(x: Word): (r: Word)
    ensures r == SmallSigma1(x)
  {
    ((x >> 17) | (x << 15)) ^ ((x >> 19) | (x << 13)) ^ (x >> 10)
  }
}
