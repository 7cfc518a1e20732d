/** The example of two blocks for SHA-256, "abcdbcde...nopq" with 56 characters: the beginning of what becomes of it. It
    holds the definitions of `Sha256Standard` to values known from elsewhere. */
module Sha256Example {
  import opened Sha256Standard
  import opened Sha256Constants

  // The first block of the padded message: the characters, the byte behind them, and zeros.
  const ROW_0: Bytes := [0x61, 0x62, 0x63, 0x64, 0x62, 0x63, 0x64, 0x65, 0x63, 0x64, 0x65, 0x66, 0x64, 0x65, 0x66, 0x67]
  const ROW_1: Bytes := [0x65, 0x66, 0x67, 0x68, 0x66, 0x67, 0x68, 0x69, 0x67, 0x68, 0x69, 0x6a, 0x68, 0x69, 0x6a, 0x6b]
  const ROW_2: Bytes := [0x69, 0x6a, 0x6b, 0x6c, 0x6a, 0x6b, 0x6c, 0x6d, 0x6b, 0x6c, 0x6d, 0x6e, 0x6c, 0x6d, 0x6e, 0x6f]
  const ROW_3: Bytes := [0x6d, 0x6e, 0x6f, 0x70, 0x6e, 0x6f, 0x70, 0x71, 0x80, 0x00, 0x00, 0x00, 0x00, 0x00, 0x00, 0x00]
  const BLOCK: Block := ROW_0 + ROW_1 + ROW_2 + ROW_3

  lemma FirstBlock(message: Bytes)
    requires message == BLOCK[..56]
    ensures |Padded(message)| == 128 && Padded(message)[..64] == BLOCK
  {
    hide BigEndian64;
    assert ZeroBytes(56) == 63;
  }

  /** Some of its words, and the first one of the schedule that is computed. */
  lemma Words()
    ensures WordAt(BLOCK, 0) == 0x61626364 && WordAt(BLOCK, 1) == 0x62636465
    ensures WordAt(BLOCK, 9) == 0x6a6b6c6d && WordAt(BLOCK, 14) == 0x80000000
    ensures Schedule(BLOCK, 16) == 0xeb8012ad
  {
    assert WordAt(BLOCK, 0) == WordOf(ROW_0[0], ROW_0[1], ROW_0[2], ROW_0[3]) == 0x61626364;
    assert WordAt(BLOCK, 1) == WordOf(ROW_0[4], ROW_0[5], ROW_0[6], ROW_0[7]) == 0x62636465;
    assert WordAt(BLOCK, 9) == WordOf(ROW_2[4], ROW_2[5], ROW_2[6], ROW_2[7]) == 0x6a6b6c6d;
    assert WordAt(BLOCK, 14) == WordOf(ROW_3[8], ROW_3[9], ROW_3[10], ROW_3[11]) == 0x80000000;
    assert Plus(Plus(Plus(SmallSigma1(0x80000000), 0x6a6b6c6d), SmallSigma0(0x62636465)), 0x61626364) == 0xeb8012ad;
    hide WordAt, Plus, SmallSigma0, SmallSigma1;
  }

  /** The first round. */
  lemma FirstRound()
    ensures Round(Initial(), RoundConstants()[0], 0x61626364) ==
            Vars(0x5d6aebb1, 0x6a09e667, 0xbb67ae85, 0x3c6ef372, 0xfa2a4606, 0x510e527f, 0x9b05688c, 0x1f83d9ab)
  {
    hide ToWord;
    ToWordIs(0x6A09E667);
    ToWordIs(0xBB67AE85);
    ToWordIs(0x3C6EF372);
    ToWordIs(0xA54FF53A);
    ToWordIs(0x510E527F);
    ToWordIs(0x9B05688C);
    ToWordIs(0x1F83D9AB);
    ToWordIs(0x5BE0CD19);
    ToWordIs(0x428a2f98);
  }
}
