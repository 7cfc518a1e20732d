/** The constant tables of src/base/hash_libtomcrypt.cpp, checked against their derivation in FIPS 180-4. */
module Sha256Constants {
  import opened Sha256Standard

  type Nat32 = k: nat | k < 0x1_0000_0000

  const K_0: seq<Nat32> := [
    0x428a2f98, 0x71374491, 0xb5c0fbcf, 0xe9b5dba5,
    0x3956c25b, 0x59f111f1, 0x923f82a4, 0xab1c5ed5,
    0xd807aa98, 0x12835b01, 0x243185be, 0x550c7dc3,
    0x72be5d74, 0x80deb1fe, 0x9bdc06a7, 0xc19bf174]

  const K_1: seq<Nat32> := [
    0xe49b69c1, 0xefbe4786, 0x0fc19dc6, 0x240ca1cc,
    0x2de92c6f, 0x4a7484aa, 0x5cb0a9dc, 0x76f988da,
    0x983e5152, 0xa831c66d, 0xb00327c8, 0xbf597fc7,
    0xc6e00bf3, 0xd5a79147, 0x06ca6351, 0x14292967]

  const K_2: seq<Nat32> := [
    0x27b70a85, 0x2e1b2138, 0x4d2c6dfc, 0x53380d13,
    0x650a7354, 0x766a0abb, 0x81c2c92e, 0x92722c85,
    0xa2bfe8a1, 0xa81a664b, 0xc24b8b70, 0xc76c51a3,
    0xd192e819, 0xd6990624, 0xf40e3585, 0x106aa070]

  const K_3: seq<Nat32> := [
    0x19a4c116, 0x1e376c08, 0x2748774c, 0x34b0bcb5,
    0x391c0cb3, 0x4ed8aa4a, 0x5b9cca4f, 0x682e6ff3,
    0x748f82ee, 0x78a5636f, 0x84c87814, 0x8cc70208,
    0x90befffa, 0xa4506ceb, 0xbef9a3f7, 0xc67178f2]

  /** `K[t]` of the program; the table is kept in rows of sixteen. */
  function RoundConstant(t: nat): Nat32
    requires t < 64
  {
    if t < 16 then K_0[t] else if t < 32 then K_1[t - 16] else if t < 48 then K_2[t - 32] else K_3[t - 48]
  }

  function ToWord(n: Nat32): Word {
    n as Word
  }

  lemma ToWordIs(w: Word)
    ensures ToWord(w as nat) == w
  {
  }

  function RoundConstants(): (k: seq<Word>)
    ensures |k| == 64
  {
    seq(64, t requires 0 <= t < 64 => ToWord(RoundConstant(t)))
  }

  const H: seq<Nat32> := [
    0x6A09E667, 0xBB67AE85, 0x3C6EF372, 0xA54FF53A,
    0x510E527F, 0x9B05688C, 0x1F83D9AB, 0x5BE0CD19]

  function Initial(): Vars {
    Vars(ToWord(H[0]), ToWord(H[1]), ToWord(H[2]), ToWord(H[3]), ToWord(H[4]), ToWord(H[5]), ToWord(H[6]), ToWord(H[7]))
  }

  /** FIPS 180-4 section 5.3.3: every word of the initial hash value is right. */
  lemma InitialIsSquareRootFraction(i: nat)
    requires i < 8
    ensures IsSquareRootFraction(PRIMES_0[i], H[i])
  {
    var whole: seq<nat> := [1, 1, 2, 2, 3, 3, 4, 4];
    assert SquareRootBounds(PRIMES_0[i], whole[i] * 0x1_0000_0000 + H[i]);
  }

  /** FIPS 180-4 section 4.2.2: every round constant is right. */
  lemma RoundConstantIsCubeRootFraction(t: nat)
    requires t < 64
    ensures IsCubeRootFraction(Prime(t), RoundConstant(t))
  {
    if t < 16 {
      RowOfCubeRoots0(t);
    } else if t < 32 {
      RowOfCubeRoots1(t - 16);
    } else if t < 48 {
      RowOfCubeRoots2(t - 32);
    } else {
      RowOfCubeRoots3(t - 48);
    }
  }

  lemma RowOfCubeRoots0(i: nat)
    requires i < 16
    ensures IsCubeRootFraction(PRIMES_0[i], K_0[i])
  {
    var whole: seq<nat> := [1, 1, 1, 1, 2, 2, 2, 2, 2, 3, 3, 3, 3, 3, 3, 3];
    assert CubeRootBounds(PRIMES_0[i], whole[i] * 0x1_0000_0000 + K_0[i]);
  }

  lemma RowOfCubeRoots1(i: nat)
    requires i < 16
    ensures IsCubeRootFraction(PRIMES_1[i], K_1[i])
  {
    var whole: seq<nat> := [3, 3, 4, 4, 4, 4, 4, 4, 4, 4, 4, 4, 4, 4, 5, 5];
    assert CubeRootBounds(PRIMES_1[i], whole[i] * 0x1_0000_0000 + K_1[i]);
  }

  lemma RowOfCubeRoots2(i: nat)
    requires i < 16
    ensures IsCubeRootFraction(PRIMES_2[i], K_2[i])
  {
    var whole: seq<nat> := [5, 5, 5, 5, 5, 5, 5, 5, 5, 5, 5, 5, 5, 5, 5, 6];
    assert CubeRootBounds(PRIMES_2[i], whole[i] * 0x1_0000_0000 + K_2[i]);
  }

  lemma RowOfCubeRoots3(i: nat)
    requires i < 16
    ensures IsCubeRootFraction(PRIMES_3[i], K_3[i])
  {
    var whole: seq<nat> := [6, 6, 6, 6, 6, 6, 6, 6, 6, 6, 6, 6, 6, 6, 6, 6];
    assert CubeRootBounds(PRIMES_3[i], whole[i] * 0x1_0000_0000 + K_3[i]);
  }
}
