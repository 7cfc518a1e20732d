/** The buffer of `ASYNCIO` in memory (src/base/system.cpp): an array that is written in place, and replaced
    when it is too small. Each method is one critical section, proved to do to the array what `AsyncRing` says. */
module AsyncBuffer {
  import opened CString
  import opened AsyncRing

  /** `mem_copy` */
  method CopyInto(b: array<Byte>, at: nat, data: seq<Byte>)
    requires at + |data| <= b.Length
    modifies b
    ensures b[..] == Overlay(old(b[..]), at, data)
  {
    for i := 0 to |data|
      invariant b[..at] == old(b[..at]) && b[at + i..] == old(b[at + i..])
      invariant b[at..at + i] == data[..i]
    {
      b[at + i] := data[i];
    }
  }

  /** New memory that begins with three pieces. */
  method Joined(size: nat, first: seq<Byte>, second: seq<Byte>, data: seq<Byte>) returns (b: array<Byte>)
    requires |first| + |second| + |data| <= size
    ensures fresh(b) && b.Length == size && first + second + data <= b[..]
  {
    b := new Byte[size];
    CopyInto(b, 0, first);
    CopyInto(b, |first|, second);
    assert b[..|first| + |second|] == first + second;
    CopyInto(b, |first| + |second|, data);
  }

  lemma TakeTwo(a: seq<Byte>, b: seq<Byte>, limit: nat)
    ensures var m := if |a| < limit then |a| else limit;
            var n := if |b| < limit - m then |b| else limit - m;
            a[..m] + b[..n] == (a + b)[..m + n] && m + n == if |a + b| < limit then |a + b| else limit
  {
  }

  class AsyncIo {
    var buffer: array<Byte>
    var readPos: nat
    var writePos: nat

    ghost function Value(): Ring
      reads this, buffer
    {
      Ring(buffer[..], readPos, writePos)
    }

    ghost predicate Valid()
      reads this, buffer
    {
      Value().Valid()
    }

    ghost function Contents(): seq<Byte>
      reads this, buffer
      requires Valid()
    {
      Value().Contents()
    }

    /** The buffer part of `aio_new`. */
    constructor ()
      ensures Valid() && Contents() == [] && fresh(buffer)
    {
      buffer := new Byte[ASYNC_BUFSIZE];
      readPos, writePos := 0, 0;
    }

    /** `buffer_len` */
    method BufferLen() returns (len: nat)
      requires Valid()
      ensures len == |Contents()|
    {
      if writePos >= readPos {
        len := writePos - readPos;
      } else {
        len := buffer.Length + writePos - readPos;
      }
    }

    /** `buffer_ptrs`: one segment behind the other is the queue; the first is empty only with the queue. */
    method BufferPtrs() returns (start1: nat, len1: nat, start2: nat, len2: nat)
      requires Valid()
      ensures start1 + len1 <= buffer.Length && start2 + len2 <= buffer.Length
      ensures Contents() == buffer[start1..start1 + len1] + buffer[start2..start2 + len2]
      ensures len1 == 0 ==> len2 == 0
    {
      start1, len1, start2, len2 := 0, 0, 0, 0;
      if readPos < writePos {
        start1, len1 := readPos, writePos - readPos;
      } else if readPos > writePos {
        start1, len1 := readPos, buffer.Length - readPos;
        start2, len2 := 0, writePos;
      }
    }

    /** `aio_write_unlocked`: the payload goes behind the queue, in place if it fits, or in a larger buffer. */
    method WriteUnlocked(data: seq<Byte>)
      requires Valid() && |Contents()| + |data| + 1 <= MAX_SIZE
      modifies this, buffer
      ensures Appends(old(Value()), data, Value())
      ensures Valid() && Contents() == old(Contents()) + data
      ensures buffer == old(buffer) || fresh(buffer)
      ensures buffer == old(buffer) <==> Fits(old(Value()), data)
    {
      hide IsSize, Wrap;
      ghost var r := Value();
      var len := BufferLen();
      var remaining := buffer.Length - len;
      if |data| < remaining {
        WriteInPlace(data);
      } else {
        Grow(data, len);
      }
      AppendsToQueue(r, data, Value());
    }

    method WriteInPlace(data: seq<Byte>)
      requires Valid() && Fits(Value(), data)
      modifies this`writePos, buffer
      ensures Value() == AppendInPlace(old(Value()), data)
    {
      hide IsSize, Wrap;
      var rest := data;
      var contiguous := buffer.Length - writePos;
      if |rest| > contiguous {
        CopyInto(buffer, writePos, rest[..contiguous]);
        rest := rest[contiguous..];
        writePos := 0;
      }
      CopyInto(buffer, writePos, rest);
      writePos := Wrap(writePos + |rest|, buffer.Length);
    }

    method Grow(data: seq<Byte>, len: nat)
      requires Valid() && len == |Contents()| && !Fits(Value(), data) && len + |data| + 1 <= MAX_SIZE
      modifies this
      ensures fresh(buffer) && Appends(old(Value()), data, Value())
    {
      hide IsSize;
      var nextSize := NextBufferSize(buffer.Length, len + |data| + 1);
      var start1, len1, start2, len2 := BufferPtrs();
      buffer := Joined(nextSize, buffer[start1..start1 + len1], buffer[start2..start2 + len2], data);
      readPos, writePos := 0, len + |data|;
    }

    /** The worker's critical section: up to 64 KiB leave the queue for its local buffer. */
    method TakeLocal() returns (local: seq<Byte>)
      requires Valid()
      modifies this`readPos
      ensures (Value(), local) == Drain(old(Value()))
      ensures Valid() && local + Contents() == old(Contents())
      ensures |local| <= ASYNC_LOCAL_BUFSIZE && (old(Contents()) != [] ==> local != [])
    {
      hide IsSize, Wrap, Ring.Contents, Drain;
      ghost var r := Value();
      DrainSplitsQueue(r);
      var start1, len1, start2, len2 := BufferPtrs();
      local, len1, len2 := CopySegments(buffer[start1..start1 + len1], buffer[start2..start2 + len2]);
      DrainIs(r, local);
      readPos := Wrap(readPos + |local|, buffer.Length);
      assert Value() == r.(readPos := readPos);
    }
  }

  /** The two copies into the local buffer, each cut to the room that is left. */
  method CopySegments(segment1: seq<Byte>, segment2: seq<Byte>) returns (local: seq<Byte>, len1: nat, len2: nat)
    ensures |local| == len1 + len2
    ensures var n := |segment1 + segment2|;
            local == (segment1 + segment2)[..if n < ASYNC_LOCAL_BUFSIZE then n else ASYNC_LOCAL_BUFSIZE]
  {
    TakeTwo(segment1, segment2, ASYNC_LOCAL_BUFSIZE);
    len1, len2 := |segment1|, |segment2|;
    if len1 > ASYNC_LOCAL_BUFSIZE {
      len1 := ASYNC_LOCAL_BUFSIZE;
    }
    local := segment1[..len1];
    if len2 > ASYNC_LOCAL_BUFSIZE - |local| {
      len2 := ASYNC_LOCAL_BUFSIZE - |local|;
    }
    local := local + segment2[..len2];
  }
}
