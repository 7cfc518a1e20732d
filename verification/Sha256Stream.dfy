/** The streaming SHA-256 of src/base/hash_libtomcrypt.cpp: a partial-block buffer, a fast path for
    whole blocks, in-place rounds and two-case padding, proved against `Sha256Standard`. */
module Sha256Stream {
  import opened Sha256Standard
  import opened Sha256Constants
  import Bits = Sha256Bits

  const BLOCK_SIZE := 64
  const U32: nat := 0x1_0000_0000

  /** What is left of `n` in a 32-bit variable. */
  function Low32(n: nat): (r: nat)
    ensures r <= n && r < U32
    ensures n < U32 ==> r == n
  {
    n % U32
  }

  lemma Low64Add(m: nat, n: nat)
    ensures Low64(Low64(m) + n) == Low64(m + n)
  {
  }

  /** The hash value after all blocks of `bytes`. */
  ghost function Hashed(bytes: Bytes): Vars
    requires IsWhole(|bytes|)
  {
    HashBlocks(Initial(), RoundConstants(), bytes)
  }

  ghost function ToVars(s: seq<Word>): Vars
    requires |s| == 8
  {
    Vars(s[0], s[1], s[2], s[3], s[4], s[5], s[6], s[7])
  }

  lemma HashedNothing()
    ensures IsWhole(0) && Low64(0) == 0 && Hashed([]) == Initial()
  {
    hide Initial, RoundConstants;
  }

  lemma HashedSnoc(bytes: Bytes, m: Block)
    requires IsWhole(|bytes|)
    ensures IsWhole(|bytes + m|) && Hashed(bytes + m) == HashBlock(Hashed(bytes), RoundConstants(), m)
  {
    hide IsWhole, HashBlock, RoundConstants, Initial;
    WholeIs(|bytes|);
    assert (bytes + m)[..|bytes + m| - 64] == bytes;
    assert (bytes + m)[|bytes + m| - 64..] == m;
  }

  lemma LoadIsWordAt(buf: Block, t: nat)
    requires t < 16
    ensures Bits.Load32(buf[4 * t..4 * t + 4]) == WordAt(buf, t)
  {
    hide WordOf;
  }

  /** The message schedule, filled in place. */
  method FillSchedule(buf: Block) returns (w: array<Word>)
    ensures fresh(w) && w.Length == 64
    ensures forall t :: 0 <= t < 64 ==> w[t] == Schedule(buf, t)
  {
    hide Plus, WordAt, Bits.Load32, Bits.Gamma0, Bits.Gamma1, SmallSigma0, SmallSigma1;
    w := new Word[64];
    for i := 0 to 16
      invariant forall t :: 0 <= t < i ==> w[t] == Schedule(buf, t)
    {
      w[i] := Bits.Load32(buf[4 * i..4 * i + 4]);
      LoadIsWordAt(buf, i);
    }
    for i := 16 to 64
      invariant forall t :: 0 <= t < i ==> w[t] == Schedule(buf, t)
    {
      w[i] := Plus(Plus(Plus(Bits.Gamma1(w[i - 2]), w[i - 7]), Bits.Gamma0(w[i - 15])), w[i - 16]);
    }
  }

  /** `RND` followed by the rotation of the eight words. */
  method RunRound(s: array<Word>, k: Word, w: Word)
    requires s.Length == 8
    modifies s
    ensures ToVars(s[..]) == Round(old(ToVars(s[..])), k, w)
  {
    hide Plus, Bits.Sigma1, Bits.Sigma0, Bits.Ch, Bits.Maj, BigSigma1, BigSigma0, Choose, Majority;
    var t0 := Plus(Plus(Plus(Plus(s[7], Bits.Sigma1(s[4])), Bits.Ch(s[4], s[5], s[6])), k), w);
    var t1 := Plus(Bits.Sigma0(s[0]), Bits.Maj(s[0], s[1], s[2]));
    s[3] := Plus(s[3], t0);
    s[7] := Plus(t0, t1);
    var t := s[7];
    s[7] := s[6];
    s[6] := s[5];
    s[5] := s[4];
    s[4] := s[3];
    s[3] := s[2];
    s[2] := s[1];
    s[1] := s[0];
    s[0] := t;
  }

  /** The sixty-four rounds on a copy of the state. */
  method RunRounds(state: array<Word>, buf: Block) returns (s: array<Word>)
    requires state.Length == 8
    ensures fresh(s) && s.Length == 8
    ensures ToVars(s[..]) == Rounds(ToVars(state[..]), RoundConstants(), buf, 64)
  {
    hide Plus, WordAt, RoundConstants, Schedule, Round;
    var w := FillSchedule(buf);
    s := new Word[8];
    for i := 0 to 8
      invariant forall j :: 0 <= j < i ==> s[j] == state[j]
      invariant forall t :: 0 <= t < 64 ==> w[t] == Schedule(buf, t)
    {
      s[i] := state[i];
    }
    assert s[..] == state[..];
    var ks := RoundConstants();
    for i := 0 to 64
      invariant ToVars(s[..]) == Rounds(ToVars(state[..]), ks, buf, i)
      invariant forall t :: 0 <= t < 64 ==> w[t] == Schedule(buf, t)
    {
      RunRound(s, ks[i], w[i]);
    }
  }

  /** The feedback: every state word grows by the matching working variable. */
  method Feedback(state: array<Word>, s: array<Word>)
    requires state.Length == 8 && s.Length == 8 && s != state
    modifies state
    ensures forall j :: 0 <= j < 8 ==> state[j] == Plus(old(state[j]), s[j])
  {
    hide Plus;
    for i := 0 to 8
      invariant forall j :: 0 <= j < i ==> state[j] == Plus(old(state[j]), s[j])
      invariant forall j :: i <= j < 8 ==> state[j] == old(state[j])
    {
      state[i] := Plus(state[i], s[i]);
    }
  }

  method StoreVars(state: array<Word>, v: Vars)
    requires state.Length == 8
    modifies state
    ensures ToVars(state[..]) == v
  {
    state[0], state[1], state[2], state[3] := v.a, v.b, v.c, v.d;
    state[4], state[5], state[6], state[7] := v.e, v.f, v.g, v.h;
  }

  /** `sha_compress`: `state` absorbs one block. */
  method Compress(state: array<Word>, buf: Block)
    requires state.Length == 8
    modifies state
    ensures ToVars(state[..]) == HashBlock(old(ToVars(state[..])), RoundConstants(), buf)
  {
    hide Plus, RoundConstants, Rounds;
    var s := RunRounds(state, buf);
    Feedback(state, s);
  }

  lemma ZerosAppend(b: Bytes, m: nat, n: nat)
    ensures b + Zeros(m) + Zeros(n) == b + Zeros(m + n)
  {
  }

  lemma ZeroBytesByBuffer(messageLength: nat, curlen: nat)
    requires curlen < 64 && curlen <= messageLength && IsWhole(messageLength - curlen)
    ensures ZeroBytes(messageLength) == if curlen + 1 > 56 then 63 - curlen + 56 else 55 - curlen
  {
    assert messageLength % 64 == curlen;
  }

  /** `x >> (8 * k)` */
  function ShiftedBytes(x: nat, k: nat): nat {
    if k == 0 then x else ShiftedBytes(x / 0x100, k - 1)
  }

  lemma {:induction false} BytesAreShifted(x: nat, k: nat, i: nat)
    requires i < k
    ensures BigEndian(x, k)[i] == ToByte(ShiftedBytes(x, k - 1 - i) % 0x100)
  {
    hide ToByte;
    if i < k - 1 {
      BytesAreShifted(x / 0x100, k - 1, i);
    }
  }

  lemma LengthByte(x: nat, i: nat)
    requires i < 8
    ensures BigEndian64(x)[i] == ToByte(ShiftedBytes(x, 7 - i) % 0x100)
  {
    hide ToByte, ShiftedBytes;
    BytesAreShifted(x, 8, i);
  }

  /** `SHA256_CTX`. `absorbed` is the message given to it so far. */
  class Context {
    const state: array<Word>
    const buf: array<bv8>
    var curlen: nat
    var length: nat
    ghost var absorbed: Bytes

    /** The whole blocks of `fed` are hashed into `state`, the rest waits in `buf`. */
    ghost predicate Holds(fed: Bytes)
      reads this, state, buf
    {
      hide IsWhole, Hashed, ToVars;
      state.Length == 8 && buf.Length == BLOCK_SIZE &&
      curlen <= BLOCK_SIZE && curlen <= |fed| && IsWhole(|fed| - curlen) &&
      buf[..curlen] == fed[|fed| - curlen..] &&
      ToVars(state[..]) == Hashed(fed[..|fed| - curlen])
    }

    /** What is true between two calls. `length` is a 64-bit counter of the hashed bits. */
    ghost predicate Valid()
      reads this, state, buf
    {
      Holds(absorbed) && curlen < BLOCK_SIZE && length == Low64(8 * (|absorbed| - curlen))
    }

    /** `sha256_init` */
    constructor ()
      ensures Valid() && absorbed == [] && fresh(state) && fresh(buf)
    {
      curlen, length := 0, 0;
      absorbed := [];
      state := new Word[8];
      buf := new bv8[BLOCK_SIZE];
      new;
      hide *;
      StoreVars(state, Initial());
      HoldsNothing(this);
    }

    /** The full buffer goes into the state. */
    method Flush(ghost fed: Bytes)
      requires Holds(fed) && curlen == BLOCK_SIZE
      modifies this`curlen, state
      ensures Holds(fed) && curlen == 0
    {
      hide Initial, RoundConstants, HashBlock;
      ghost var whole := fed[..|fed| - 64];
      assert fed == whole + buf[..];
      HashedSnoc(whole, buf[..]);
      Compress(state, buf[..]);
      curlen := 0;
      assert fed[..|fed|] == fed;
    }

    /** The `memcpy` into the partial block. */
    method CopyIn(piece: Bytes)
      requires Holds(absorbed) && curlen + |piece| <= BLOCK_SIZE
      modifies this`curlen, this`absorbed, buf
      ensures absorbed == old(absorbed) + piece && curlen == old(curlen) + |piece| && Holds(absorbed)
    {
      hide Hashed;
      ghost var fed := absorbed;
      for i := 0 to |piece|
        invariant curlen == old(curlen) + i
        invariant buf[..curlen] == fed[|fed| - old(curlen)..] + piece[..i]
        invariant absorbed == fed
      {
        buf[curlen] := piece[i];
        curlen := curlen + 1;
      }
      absorbed := absorbed + piece;
      assert piece[..|piece|] == piece;
      assert absorbed[|absorbed| - curlen..] == fed[|fed| - old(curlen)..] + piece;
      assert absorbed[..|absorbed| - curlen] == fed[..|fed| - old(curlen)];
    }

    /** The fast path: a whole block never enters the buffer. */
    method AbsorbBlock(block: Block)
      requires Valid() && curlen == 0
      modifies this`length, this`absorbed, state
      ensures Valid() && absorbed == old(absorbed) + block
    {
      hide Initial, RoundConstants, HashBlock, HashBlocks, Low64;
      HashedSnoc(absorbed, block);
      assert absorbed[..|absorbed|] == absorbed;
      Compress(state, block);
      Low64Add(8 * |absorbed|, BLOCK_SIZE * 8);
      length := Low64(length + BLOCK_SIZE * 8);
      absorbed := absorbed + block;
      assert absorbed[..|absorbed|] == absorbed;
    }

    /** The slow path: fill up the buffer, and flush it when it is full. */
    method AbsorbPiece(piece: Bytes)
      requires Valid() && curlen + |piece| <= BLOCK_SIZE
      modifies this, state, buf
      ensures Valid() && absorbed == old(absorbed) + piece
    {
      hide Hashed, Low64;
      CopyIn(piece);
      if curlen == BLOCK_SIZE {
        Flush(absorbed);
        Low64Add(8 * (|absorbed| - BLOCK_SIZE), 8 * BLOCK_SIZE);
        length := Low64(length + 8 * BLOCK_SIZE);
      }
    }

    /** `sha256_update`. The program passes `data_len` on as 32 bits, so it reads only that many bytes. */
    method Update(data: Bytes)
      requires Valid()
      modifies this, state, buf
      ensures Valid() && absorbed == old(absorbed) + data[..Low32(|data|)]
    {
      hide Holds, Hashed, Low64;
      var pos: nat, inlen: nat := 0, Low32(|data|);
      ghost var before := absorbed;
      while inlen > 0
        invariant pos + inlen == Low32(|data|)
        invariant Valid() && absorbed == before + data[..pos]
        decreases inlen
      {
        if curlen == 0 && inlen >= BLOCK_SIZE {
          AbsorbBlock(data[pos..pos + BLOCK_SIZE]);
          pos, inlen := pos + BLOCK_SIZE, inlen - BLOCK_SIZE;
        } else {
          var n := if inlen < BLOCK_SIZE - curlen then inlen else BLOCK_SIZE - curlen;
          AbsorbPiece(data[pos..pos + n]);
          pos, inlen := pos + n, inlen - n;
        }
      }
    }

    /** Zero bytes up to position `end` of the buffer. */
    method FillZeros(end: nat, ghost fed: Bytes)
      requires Holds(fed) && curlen <= end <= BLOCK_SIZE
      modifies this`curlen, buf
      ensures Holds(fed + Zeros(end - old(curlen))) && curlen == end
    {
      hide Hashed;
      ghost var start := curlen;
      assert fed + Zeros(0) == fed;
      while curlen < end
        invariant start <= curlen <= end
        invariant Holds(fed + Zeros(curlen - start))
      {
        PutByte(0, fed + Zeros(curlen - start));
        assert fed + Zeros(curlen - start) == fed + Zeros(curlen - 1 - start) + [0];
      }
    }

    method PutByte(b: bv8, ghost fed: Bytes)
      requires Holds(fed) && curlen < BLOCK_SIZE
      modifies this`curlen, buf
      ensures Holds(fed + [b]) && curlen == old(curlen) + 1
    {
      hide Hashed;
      ghost var whole := fed[..|fed| - curlen];
      buf[curlen] := b;
      curlen := curlen + 1;
      assert (fed + [b])[..|fed + [b]| - curlen] == whole;
    }

    /** `store64` at the end of the buffer. */
    method PutLength(ghost fed: Bytes)
      requires Holds(fed) && curlen == 56
      modifies this`curlen, buf
      ensures Holds(fed + BigEndian64(length)) && curlen == BLOCK_SIZE
    {
      hide Hashed, ToByte, BigEndian64, ShiftedBytes, Holds;
      ghost var field := BigEndian64(length);
      assert fed + field[..0] == fed;
      for i := 0 to 8
        invariant curlen == 56 + i
        invariant Holds(fed + field[..i])
      {
        LengthByte(length, i);
        PutByte(ToByte(ShiftedBytes(length, 7 - i) % 0x100), fed + field[..i]);
        assert fed + field[..i + 1] == fed + field[..i] + [field[i]];
      }
      assert field[..8] == field;
    }

    /** No room for the length field: zeros to the end of the block. */
    method SpillBlock(ghost fed: Bytes)
      requires Holds(fed) && curlen <= BLOCK_SIZE
      modifies this`curlen, state, buf
      ensures Holds(fed + Zeros(BLOCK_SIZE - old(curlen))) && curlen == 0
    {
      hide Hashed, Zeros;
      ghost var n := BLOCK_SIZE - curlen;
      FillZeros(BLOCK_SIZE, fed);
      Flush(fed + Zeros(n));
    }

    /** The zeros before the length field, over one block or two. */
    method PadZeros(ghost fed: Bytes)
      requires Holds(fed) && curlen <= BLOCK_SIZE
      modifies this`curlen, state, buf
      ensures curlen == 56
      ensures Holds(fed + Zeros(if old(curlen) > 56 then BLOCK_SIZE - old(curlen) + 56 else 56 - old(curlen)))
    {
      hide Holds, Zeros;
      if curlen > 56 {
        ghost var n := BLOCK_SIZE - curlen;
        SpillBlock(fed);
        FillZeros(56, fed + Zeros(n));
        ZerosAppend(fed, n, 56);
      } else {
        FillZeros(56, fed);
      }
    }

    /** The `0x80` byte and the zeros. */
    method PadMessage(ghost message: Bytes)
      requires Holds(message) && curlen < BLOCK_SIZE
      modifies this`curlen, state, buf
      ensures Holds(message + [0x80] + Zeros(ZeroBytes(|message|))) && curlen == 56
    {
      hide Zeros, ZeroBytes, IsWhole, Hashed;
      ZeroBytesByBuffer(|message|, curlen);
      PutByte(0x80, message);
      PadZeros(message + [0x80]);
    }

    /** `sha256_finish` */
    method Finish() returns (digest: Bytes)
      requires Valid()
      modifies this, state, buf
      ensures digest == Digest(Initial(), RoundConstants(), old(absorbed))
    {
      hide Hashed, Low64, RoundConstants, Initial, BigEndian64, ZeroBytes, HashBlocks;
      ghost var message := absorbed;
      Low64Add(8 * (|message| - curlen), 8 * curlen);
      length := Low64(length + curlen * 8);
      hide Holds, Zeros, Digest;
      PadMessage(message);
      PutLength(message + [0x80] + Zeros(ZeroBytes(|message|)));
      Flush(Padded(message));
      digest := Output(message);
    }

    method Output(ghost message: Bytes) returns (digest: Bytes)
      requires Holds(Padded(message)) && curlen == 0
      ensures digest == Digest(Initial(), RoundConstants(), message)
    {
      hide BigEndian32, Initial, RoundConstants, HashBlocks, Padded;
      assert Padded(message)[..|Padded(message)|] == Padded(message);
      digest := [];
      for i := 0 to 8
        invariant digest == Words(state[..i])
      {
        var out := Store32(state[i]);
        digest := digest + out;
        assert state[..i + 1][..i] == state[..i];
      }
      SerializeIsWords(state[..]);
      assert state[..8] == state[..];
    }
  }

  /** `store32` */
  method Store32(x: Word) returns (y: Bytes)
    ensures y == BigEndian32(x)
  {
    hide Bits.Store32Byte, BigEndian32;
    y := [];
    for i := 0 to 4
      invariant |y| == i && forall j :: 0 <= j < i ==> y[j] == Bits.Store32Byte(x, j)
    {
      y := y + [Bits.Store32Byte(x, i)];
    }
    Bits.StoreIsBigEndian(x);
  }

  lemma HoldsNothing(c: Context)
    requires c.state.Length == 8 && c.buf.Length == BLOCK_SIZE && ToVars(c.state[..]) == Initial()
    requires c.curlen == 0 && c.length == 0 && c.absorbed == []
    ensures c.Valid()
  {
    hide Initial, Hashed, ToVars, Low64, IsWhole;
    HashedNothing();
    assert c.buf[..0] == [];
  }

  ghost function Words(s: seq<Word>): Bytes {
    if s == [] then [] else Words(s[..|s| - 1]) + BigEndian32(s[|s| - 1])
  }

  lemma SerializeIsWords(s: seq<Word>)
    requires |s| == 8
    ensures Words(s) == Serialize(ToVars(s))
  {
    hide BigEndian32;
    assert s[..7][..6] == s[..6] && s[..6][..5] == s[..5] && s[..5][..4] == s[..4];
    assert s[..4][..3] == s[..3] && s[..3][..2] == s[..2] && s[..2][..1] == s[..1] && s[..1][..0] == [];
    assert Words(s[..1]) == BigEndian32(s[0]);
    assert Words(s[..2]) == BigEndian32(s[0]) + BigEndian32(s[1]);
    assert Words(s[..3]) == BigEndian32(s[0]) + BigEndian32(s[1]) + BigEndian32(s[2]);
    assert Words(s[..4]) == Words(s[..3]) + BigEndian32(s[3]);
    assert Words(s[..5]) == Words(s[..4]) + BigEndian32(s[4]);
    assert Words(s[..6]) == Words(s[..5]) + BigEndian32(s[5]);
    assert Words(s[..7]) == Words(s[..6]) + BigEndian32(s[6]);
  }

  /** The bytes the context sees of a message given in pieces. */
  ghost function Seen(pieces: seq<Bytes>): Bytes {
    if pieces == [] then []
    else
      var last := pieces[|pieces| - 1];
      Seen(pieces[..|pieces| - 1]) + last[..Low32(|last|)]
  }

  ghost function Joined(pieces: seq<Bytes>): Bytes {
    if pieces == [] then [] else Joined(pieces[..|pieces| - 1]) + pieces[|pieces| - 1]
  }

  ghost predicate PiecesFit32(pieces: seq<Bytes>) {
    forall i :: 0 <= i < |pieces| ==> |pieces[i]| < U32
  }

  /** The whole message is seen exactly when every piece's length fits 32 bits. */
  lemma {:induction false} SeenIsJoined(pieces: seq<Bytes>)
    ensures |Seen(pieces)| <= |Joined(pieces)|
    ensures Seen(pieces) == Joined(pieces) <==> PiecesFit32(pieces)
  {
    if pieces != [] {
      var front, last := pieces[..|pieces| - 1], pieces[|pieces| - 1];
      SeenIsJoined(front);
      assert PiecesFit32(pieces) <==> PiecesFit32(front) && |last| < U32;
      if |last| < U32 {
        assert last[..Low32(|last|)] == last;
        if Seen(pieces) == Joined(pieces) {
          assert Seen(front) == Seen(pieces)[..|Seen(pieces)| - |last|];
          assert Joined(front) == Joined(pieces)[..|Joined(pieces)| - |last|];
        }
      }
    }
  }

  /** `sha256` with the message in any number of pieces: the split does not matter. */
  method HashPieces(pieces: seq<Bytes>) returns (digest: Bytes)
    ensures digest == Digest(Initial(), RoundConstants(), Seen(pieces))
    ensures PiecesFit32(pieces) ==> digest == Digest(Initial(), RoundConstants(), Joined(pieces))
  {
    hide Initial, RoundConstants, Digest, PiecesFit32;
    var ctxt := new Context();
    for i := 0 to |pieces|
      invariant fresh(ctxt) && fresh(ctxt.state) && fresh(ctxt.buf)
      invariant ctxt.Valid() && ctxt.absorbed == Seen(pieces[..i])
    {
      ctxt.Update(pieces[i]);
      assert pieces[..i + 1][..i] == pieces[..i];
    }
    assert pieces[..|pieces|] == pieces;
    digest := ctxt.Finish();
    SeenIsJoined(pieces);
  }
}
