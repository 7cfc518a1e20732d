/** The growable ring buffer of src/base/system.cpp (`ASYNCIO`), as a value: what each critical section does. */
module AsyncRing {
  import opened CString

  const ASYNC_BUFSIZE: nat := 8 * 1024
  const ASYNC_LOCAL_BUFSIZE: nat := 64 * 1024
  const MAX_SIZE: nat := 0x8000_0000
  const U32: nat := 0x1_0000_0000

  /** The sizes a buffer can have: the first one, doubled a number of times. */
  predicate IsSize(n: nat) {
    n == ASYNC_BUFSIZE || (n > ASYNC_BUFSIZE && n % 2 == 0 && IsSize(n / 2))
  }

  lemma {:induction false} SizesAreFarApart(m: nat, n: nat)
    requires IsSize(m) && IsSize(n) && m < n
    ensures 2 * m <= n
  {
    if m > ASYNC_BUFSIZE {
      SizesAreFarApart(m / 2, n / 2);
    }
  }

  /** `x % size` for a position that may be one lap too far. */
  function Wrap(x: nat, size: nat): nat
    requires size > 0
  {
    x % size
  }

  lemma WrapIs(x: nat, size: nat)
    requires x < 2 * size
    ensures Wrap(x, size) == if x < size then x else x - size
  {
    if x >= size {
      assert x == size + (x - size);
    }
  }

  datatype Ring = Ring(buffer: seq<Byte>, readPos: nat, writePos: nat) {
    predicate Valid() {
      IsSize(|buffer|) && |buffer| <= MAX_SIZE && readPos < |buffer| && writePos < |buffer|
    }

    /** The queue: the two segments of `buffer_ptrs`, one behind the other. */
    function Contents(): (c: seq<Byte>)
      requires Valid()
      ensures |c| < |buffer|
      ensures |c| == Length()
    {
      if readPos <= writePos then buffer[readPos..writePos] else buffer[readPos..] + buffer[..writePos]
    }

    /** `buffer_len` */
    function Length(): nat
      requires Valid()
    {
      if writePos >= readPos then writePos - readPos else |buffer| + writePos - readPos
    }
  }

  /** `next_buffer_size`: the least size from `cur` on, by doubling, that has room for `need`. */
  predicate IsNextSize(cur: nat, need: nat, next: nat) {
    IsSize(next) && cur <= next && need <= next && (next == cur || next / 2 < need)
  }

  /** Writing in place is possible when one byte stays free. */
  predicate Fits(r: Ring, p: seq<Byte>)
    requires r.Valid()
  {
    |p| < |r.buffer| - r.Length()
  }

  function Overlay(b: seq<Byte>, at: nat, p: seq<Byte>): (b': seq<Byte>)
    requires at + |p| <= |b|
    ensures |b'| == |b|
  {
    b[..at] + p + b[at + |p|..]
  }

  function AppendInPlace(r: Ring, p: seq<Byte>): Ring
    requires r.Valid() && Fits(r, p)
  {
    var size := |r.buffer|;
    var contiguous := size - r.writePos;
    if |p| > contiguous then
      var b := Overlay(r.buffer, r.writePos, p[..contiguous]);
      r.(buffer := Overlay(b, 0, p[contiguous..]), writePos := Wrap(|p| - contiguous, size))
    else
      r.(buffer := Overlay(r.buffer, r.writePos, p), writePos := Wrap(r.writePos + |p|, size))
  }

  /** `r'` is what `aio_write_unlocked` can leave of `r`; new memory behind the data holds anything. */
  ghost predicate Appends(r: Ring, p: seq<Byte>, r': Ring)
    requires r.Valid()
  {
    if Fits(r, p) then r' == AppendInPlace(r, p)
    else
      && IsNextSize(|r.buffer|, r.Length() + |p| + 1, |r'.buffer|)
      && r.Contents() + p <= r'.buffer
      && r'.readPos == 0 && r'.writePos == r.Length() + |p|
  }

  lemma InPlaceNoWrap(r: Ring, p: seq<Byte>)
    requires r.Valid() && Fits(r, p) && r.writePos + |p| < |r.buffer|
    ensures AppendInPlace(r, p).Valid() && AppendInPlace(r, p).Contents() == r.Contents() + p
  {
    hide IsSize, Wrap;
    WrapIs(r.writePos + |p|, |r.buffer|);
    var r' := AppendInPlace(r, p);
    assert r'.writePos == r.writePos + |p|;
    if r.readPos <= r.writePos {
      assert r'.buffer[r.readPos..r'.writePos] == r.buffer[r.readPos..r.writePos] + p;
    } else {
      assert r'.buffer[..r'.writePos] == r.buffer[..r.writePos] + p;
      assert r'.buffer[r.readPos..] == r.buffer[r.readPos..];
    }
  }

  /** The ring after a write over the end of the buffer. */
  lemma WrappedRing(r: Ring, p: seq<Byte>)
    requires r.Valid() && Fits(r, p) && r.writePos + |p| >= |r.buffer|
    ensures var k := |r.buffer| - r.writePos;
            var m := |p| - k;
            0 <= m < r.readPos <= r.writePos &&
            AppendInPlace(r, p) == Ring(p[k..] + (r.buffer[m..r.writePos] + p[..k]), r.readPos, m)
  {
    hide IsSize, Wrap;
    WrapIs(r.writePos + |p|, |r.buffer|);
    var k := |r.buffer| - r.writePos;
    WrapIs(|p| - k, |r.buffer|);
    if |p| > k {
      assert Overlay(r.buffer, r.writePos, p[..k]) == r.buffer[..r.writePos] + p[..k];
    }
  }

  lemma InPlaceWrap(r: Ring, p: seq<Byte>)
    requires r.Valid() && Fits(r, p) && r.writePos + |p| >= |r.buffer|
    ensures AppendInPlace(r, p).Valid() && AppendInPlace(r, p).Contents() == r.Contents() + p
  {
    hide IsSize, Wrap, AppendInPlace;
    WrappedRing(r, p);
    var r', c := AppendInPlace(r, p), r.Contents();
    var k := |r.buffer| - r.writePos;
    var m := |p| - k;
    var kept := r.buffer[m..r.writePos];
    assert |r'.buffer| == |r.buffer|;
    assert kept[r.readPos - m..] == c;
    CutBuffer(kept, p[..k], p[k..], r.readPos - m);
    assert r'.buffer[r.readPos..] == c + p[..k] && r'.buffer[..m] == p[k..];
    Reassociate(c, p, k);
  }

  lemma CutBuffer(kept: seq<Byte>, p1: seq<Byte>, p2: seq<Byte>, d: nat)
    requires d <= |kept|
    ensures var b := p2 + (kept + p1); b[..|p2|] == p2 && b[|p2| + d..] == kept[d..] + p1
  {
  }

  lemma Reassociate(c: seq<Byte>, p: seq<Byte>, k: nat)
    requires k <= |p|
    ensures c + p[..k] + p[k..] == c + p
  {
  }

  /** Every write appends exactly its payload, and leaves one byte free. */
  lemma AppendsToQueue(r: Ring, p: seq<Byte>, r': Ring)
    requires r.Valid() && Appends(r, p, r')
    requires r.Length() + |p| + 1 <= MAX_SIZE
    ensures r'.Valid() && r'.Contents() == r.Contents() + p
  {
    if Fits(r, p) {
      if r.writePos + |p| < |r.buffer| {
        InPlaceNoWrap(r, p);
      } else {
        InPlaceWrap(r, p);
      }
    } else {
      NextSizeFits(|r.buffer|, r.Length() + |p| + 1, |r'.buffer|);
    }
  }

  function Pow2(k: nat): nat {
    if k == 0 then 1 else 2 * Pow2(k - 1)
  }

  lemma {:induction false} PowerIsSize(k: nat)
    ensures IsSize(ASYNC_BUFSIZE * Pow2(k)) && Pow2(k) >= 1
  {
    if k > 0 {
      PowerIsSize(k - 1);
      assert ASYNC_BUFSIZE * Pow2(k) / 2 == ASYNC_BUFSIZE * Pow2(k - 1);
    }
  }

  lemma Pow2Of18()
    ensures Pow2(18) == 0x4_0000
  {
    assert Pow2(2) == 4;
    assert Pow2(4) == 0x10;
    assert Pow2(6) == 0x40;
    assert Pow2(8) == 0x100;
    assert Pow2(10) == 0x400;
    assert Pow2(12) == 0x1000;
    assert Pow2(14) == 0x4000;
    assert Pow2(16) == 0x1_0000;
  }

  lemma MaxIsSize()
    ensures IsSize(MAX_SIZE)
  {
    hide IsSize;
    PowerIsSize(18);
    Pow2Of18();
  }

  /** Doubling stays within 32 bits as long as half the range is enough. */
  lemma NextSizeFits(cur: nat, need: nat, next: nat)
    requires cur <= MAX_SIZE && need <= MAX_SIZE && IsNextSize(cur, need, next)
    ensures next <= MAX_SIZE
  {
    MaxIsSize();
    hide IsSize;
    if next > MAX_SIZE {
      SizesAreFarApart(MAX_SIZE, next);
    }
  }

  /** The worker's critical section: it takes the oldest bytes, as many as its local buffer holds. */
  function Drain(r: Ring): (t: (Ring, seq<Byte>))
    requires r.Valid()
  {
    var n := if r.Length() < ASYNC_LOCAL_BUFSIZE then r.Length() else ASYNC_LOCAL_BUFSIZE;
    (r.(readPos := Wrap(r.readPos + n, |r.buffer|)), r.Contents()[..n])
  }

  lemma DrainIs(r: Ring, local: seq<Byte>)
    requires r.Valid()
    requires local == r.Contents()[..if r.Length() < ASYNC_LOCAL_BUFSIZE then r.Length() else ASYNC_LOCAL_BUFSIZE]
    ensures Drain(r) == (r.(readPos := Wrap(r.readPos + |local|, |r.buffer|)), local)
  {
  }

  lemma DrainSplitsQueue(r: Ring)
    requires r.Valid()
    ensures var (r', local) := Drain(r);
            r'.Valid() && local + r'.Contents() == r.Contents() && |local| <= ASYNC_LOCAL_BUFSIZE &&
            (r.Contents() != [] ==> local != [])
  {
    hide IsSize, Wrap;
    var n := |Drain(r).1|;
    WrapIs(r.readPos + n, |r.buffer|);
    var r', c := Drain(r).0, r.Contents();
    assert r'.Contents() == c[n..];
    assert c[..n] + c[n..] == c;
  }

  /** The next value of `cur_size` in the loop of `next_buffer_size`, in 32 bits. */
  function Doubled(cur: nat): nat {
    2 * cur % U32
  }

  /** `cur_size` after `n` rounds. */
  function DoubledTimes(cur: nat, n: nat): nat {
    if n == 0 then cur else Doubled(DoubledTimes(cur, n - 1))
  }

  /** From a size the loop ever reaches, it can only go to sizes up to 2^31 and to 0. */
  lemma {:induction false} DoubledIsSizeOrZero(cur: nat, n: nat)
    requires IsSize(cur) && cur <= MAX_SIZE
    ensures var d := DoubledTimes(cur, n); d == 0 || (IsSize(d) && d <= MAX_SIZE)
  {
    if n > 0 {
      DoubledIsSizeOrZero(cur, n - 1);
      var d := DoubledTimes(cur, n - 1);
      if d != 0 {
        DoubleSize(d);
      }
    }
  }

  lemma DoubleSize(d: nat)
    requires IsSize(d) && d <= MAX_SIZE
    ensures if d == MAX_SIZE then Doubled(d) == 0 else Doubled(d) == 2 * d && IsSize(2 * d) && 2 * d <= MAX_SIZE
  {
    hide IsSize;
    SizeDoubled(d);
    if d < MAX_SIZE {
      MaxIsSize();
      SizesAreFarApart(d, MAX_SIZE);
    }
  }

  lemma SizeDoubled(d: nat)
    requires IsSize(d)
    ensures IsSize(2 * d)
  {
    assert 2 * d / 2 == d;
  }

  /** The loop ends exactly when the needed size is at most 2^31: beyond that `cur_size` becomes 0 and stays 0. */
  lemma NextSizeTerminates(cur: nat, need: nat)
    requires IsSize(cur) && cur <= MAX_SIZE
    ensures (exists n :: DoubledTimes(cur, n) >= need) <==> need <= MAX_SIZE
  {
    if need <= MAX_SIZE {
      var n := RoundsToMax(cur);
      assert DoubledTimes(cur, n) >= need;
    } else {
      forall n
        ensures DoubledTimes(cur, n) < need
      {
        DoubledIsSizeOrZero(cur, n);
      }
    }
  }

  lemma {:induction false} RoundsToMax(cur: nat) returns (n: nat)
    requires IsSize(cur) && cur <= MAX_SIZE
    ensures DoubledTimes(cur, n) == MAX_SIZE
    decreases MAX_SIZE - cur
  {
    DoubleSize(cur);
    if cur == MAX_SIZE {
      n := 0;
    } else {
      var m := RoundsToMax(2 * cur);
      DoubledShift(cur, m);
      n := m + 1;
    }
  }

  lemma {:induction false} DoubledShift(cur: nat, n: nat)
    ensures DoubledTimes(cur, n + 1) == DoubledTimes(Doubled(cur), n)
  {
    if n > 0 {
      DoubledShift(cur, n - 1);
    }
  }

  /** `next_buffer_size` */
  method NextBufferSize(curSize: nat, needSize: nat) returns (size: nat)
    requires IsSize(curSize) && curSize <= MAX_SIZE && needSize <= MAX_SIZE
    ensures IsNextSize(curSize, needSize, size) && size <= MAX_SIZE
  {
    assert curSize > 0;
    hide IsSize;
    size := curSize;
    while size < needSize
      invariant 0 < curSize <= size <= MAX_SIZE && IsSize(size)
      invariant size == curSize || size / 2 < needSize
      decreases MAX_SIZE - size
    {
      DoubleSize(size);
      size := Doubled(size);
    }
  }
}
