/** String copies of src/base/system.cpp that must not cut a character in half. */
module Utf8Strings {
  import opened CString
  import opened Utf8Standard
  import opened Utf8

  /** `r` is a prefix of `s` in whole characters, with at most `bytes` octets and `chars` characters. */
  ghost predicate IsWhole(s: seq<Byte>, bytes: int, chars: int, r: seq<Byte>) {
    r <= s && |r| <= bytes && WellFormed(r) && |DecodeAll(r)| <= chars
  }

  ghost predicate IsLongestWhole(s: seq<Byte>, bytes: int, chars: int, r: seq<Byte>) {
    IsWhole(s, bytes, chars, r) && forall p :: IsWhole(s, bytes, chars, p) ==> |p| <= |r|
  }

  /** The longest prefix of whole characters that fits `bytes` octets. */
  ghost predicate IsLongestFit(s: seq<Byte>, bytes: int, r: seq<Byte>) {
    r <= s && |r| <= bytes && WellFormed(r) &&
    forall p :: p <= s && |p| <= bytes && WellFormed(p) ==> |p| <= |r|
  }

  predicate IsStart(c: Byte) {
    !(0x80 <= c <= 0xBF)
  }

  /** Where the last character of `s[..cursor]` begins, going by its start octet. */
  function Rewind(s: seq<Byte>, cursor: nat): (r: nat)
    requires cursor <= |s|
    ensures r <= cursor && (cursor > 0 ==> r < cursor)
  {
    if cursor == 0 then 0 else if IsStart(s[cursor - 1]) then cursor - 1 else Rewind(s, cursor - 1)
  }

  /** The text that is left of `s` after dropping a broken last character. */
  function Repaired(s: seq<Byte>): (r: seq<Byte>)
    ensures r <= s
  {
    var last := Rewind(s, |s|);
    if s != [] && DecodeHead(s[last..]).0 == -1 then s[..last] else s
  }

  /** `str_utf8_rewind` */
  method RewindCursor(str: seq<Byte>, start: nat) returns (cursor: nat)
    requires start <= |str|
    ensures cursor == Rewind(str, start)
    ensures forall i :: cursor < i < start ==> !IsStart(str[i])
    ensures start > 0 ==> cursor < start && (IsStart(str[cursor]) || cursor == 0)
  {
    cursor := start;
    while cursor > 0
      invariant cursor <= start && Rewind(str, start) == Rewind(str, cursor)
      invariant forall i :: cursor <= i < start ==> !IsStart(str[i])
    {
      cursor := cursor - 1;
      if IsStart(str[cursor]) {
        return;
      }
    }
  }

  lemma {:induction false} RewindPrefix(s: seq<Byte>, t: seq<Byte>, cursor: nat)
    requires cursor <= |s| && s <= t
    ensures Rewind(s, cursor) == Rewind(t, cursor)
  {
    if cursor > 0 {
      RewindPrefix(s, t, cursor - 1);
    }
  }

  lemma {:induction false} RewindAfter(c: seq<Byte>, t: seq<Byte>, k: nat)
    requires 1 <= k <= |t| && IsStart(t[0])
    ensures Rewind(c + t, |c| + k) == |c| + Rewind(t, k)
  {
    if k > 1 {
      RewindAfter(c, t, k - 1);
    }
  }

  /** `str_utf8_fix_truncation` */
  method FixTruncation(str: array<Byte>) returns (len: nat)
    requires 0 in str[..]
    modifies str
    ensures 0 in str[..] && Text(str[..]) == Repaired(old(Text(str[..]))) && len == |Text(str[..])|
    ensures forall i :: old(StrLength(str[..])) <= i < str.Length ==> str[i] == old(str[i])
  {
    hide DecodeHead, IsChar;
    ghost var s := Text(str[..]);
    len := StrLength(str[..]);
    if len > 0 {
      var last := RewindCursor(str[..], len);
      RewindPrefix(s, str[..], len);
      TextOfRest(str[..], last);
      var code, _ := DecodeStep(str[..], last);
      if code == -1 {
        str[last] := 0;
        assert str[..last] == s[..last];
        TextIs(str[..], last);
        return last;
      }
    }
  }

  /** How far whole decoding steps get in `room` octets and `chars` steps. */
  function Steps(s: seq<Byte>, room: int, chars: int): (n: nat)
    ensures n <= |s| && (room >= 0 ==> n <= room)
    decreases |s|
  {
    if s == [] || chars <= 0 || DecodeHead(s).1 > room then 0
    else
      var n := DecodeHead(s).1;
      n + Steps(s[n..], room - n, chars - 1)
  }

  lemma CutRest(s: seq<Byte>, n: nat, k: nat)
    requires n <= k <= |s|
    ensures s[..k][n..] == s[n..][..k - n]
  {
  }

  lemma {:induction false} StepsAreWhole(s: seq<Byte>, room: nat, chars: nat)
    requires WellFormed(s)
    ensures IsWhole(s, room, chars, s[..Steps(s, room, chars)])
    decreases |s|
  {
    hide IsChar, Decode;
    var k := Steps(s, room, chars);
    if k > 0 {
      var n := DecodeHead(s).1;
      StepsAreWhole(s[n..], room - n, chars - 1);
      HeadOfCut(s, k);
      CutRest(s, n, k);
    }
  }

  lemma HeadOfCut(s: seq<Byte>, k: nat)
    requires WellFormed(s) && s != [] && DecodeHead(s).1 <= k <= |s|
    ensures WellFormed(s[..k]) <==> WellFormed(s[..k][DecodeHead(s).1..])
    ensures DecodeHead(s[..k]) == DecodeHead(s)
  {
    hide IsChar, Decode;
    var n := HeadLength(s[0]);
    assert s[..k][..n] == s[..n];
  }

  lemma {:induction false} StepsAreMost(s: seq<Byte>, room: nat, chars: nat, p: seq<Byte>)
    requires WellFormed(s) && IsWhole(s, room, chars, p)
    ensures |p| <= Steps(s, room, chars)
    decreases |s|
  {
    hide IsChar, Decode;
    if p != [] {
      HeadOfPrefix(s, p);
      var n := DecodeHead(s).1;
      assert p[n..] <= s[n..];
      StepsAreMost(s[n..], room - n, chars - 1, p[n..]);
    }
  }

  /** On well-formed text those steps are the longest whole prefix. */
  lemma StepsAreLongest(s: seq<Byte>, room: nat, chars: nat)
    requires WellFormed(s)
    ensures IsLongestWhole(s, room, chars, s[..Steps(s, room, chars)])
    ensures WellFormed(s[..Steps(s, room, chars)])
  {
    StepsAreWhole(s, room, chars);
    hide Steps;
    forall p | IsWhole(s, room, chars, p)
      ensures |p| <= Steps(s, room, chars)
    {
      StepsAreMost(s, room, chars, p);
    }
  }

  /** A well-formed prefix starts with the same character. */
  lemma HeadOfPrefix(s: seq<Byte>, p: seq<Byte>)
    requires WellFormed(s) && WellFormed(p) && p != [] && p <= s
    ensures DecodeHead(p) == DecodeHead(s) && DecodeHead(s).1 <= |p|
  {
    hide IsChar, Decode;
    assert s[..HeadLength(s[0])] == p[..HeadLength(s[0])];
  }

  lemma WellFormedUnfolds(s: seq<Byte>)
    requires WellFormed(s) && s != []
    ensures var h := HeadLength(s[0]);
            h <= |s| && IsChar(s[..h]) && WellFormed(s[h..]) && DecodeHead(s).1 == h
  {
    hide IsChar, Decode;
  }

  lemma StepsCases(s: seq<Byte>, room: int, chars: int)
    ensures s == [] || chars <= 0 || DecodeHead(s).1 > room ==> Steps(s, room, chars) == 0
    ensures var n := DecodeHead(s).1;
            s != [] && chars > 0 && n <= room ==> Steps(s, room, chars) == n + Steps(s[n..], room - n, chars - 1)
  {
  }

  /** Repairing a cut text leaves its longest whole prefix. */
  lemma {:induction false} RepairedIsSteps(s: seq<Byte>, n: nat)
    requires WellFormed(s) && n <= |s|
    ensures Repaired(s[..n]) == s[..Steps(s, n, n)]
    decreases |s|
  {
    if n > 0 {
      WellFormedUnfolds(s);
      hide IsChar, Decode, DecodeHead, WellFormed, Repaired;
      var h := HeadLength(s[0]);
      if n < h {
        CutChar(s[..h], n);
        assert s[..n] == s[..h][..n];
      } else {
        RepairedIsSteps(s[h..], n - h);
        RepairedIsStepsAfter(s, h, n);
      }
    }
  }

  lemma RepairedIsStepsAfter(s: seq<Byte>, h: nat, n: nat)
    requires s != [] && h == DecodeHead(s).1 <= n <= |s| && IsChar(s[..h]) && WellFormed(s[h..])
    requires Repaired(s[h..][..n - h]) == s[h..][..Steps(s[h..], n - h, n - h)]
    ensures Repaired(s[..n]) == s[..Steps(s, n, n)]
  {
    hide IsChar, Decode, DecodeHead, WellFormed, Steps, Repaired, HeadLength;
    StepsCases(s, n, n);
    StepsCharsEnough(s[h..], n - h, n - h, n - 1);
    var t := s[h..][..n - h];
    if t != [] {
      FirstIsStart(s[h..]);
    }
    var k := Steps(s[h..], n - h, n - h);
    RepairedCharThen(s[..h], t, k);
    assert s[..n] == s[..h] + t;
    assert s[..n][..h + k] == s[..h + k];
  }

  lemma RepairedCharThen(c: seq<Byte>, t: seq<Byte>, k: nat)
    requires IsChar(c) && (t != [] ==> IsStart(t[0]))
    requires k <= |t| && Repaired(t) == t[..k]
    ensures Repaired(c + t) == (c + t)[..|c| + k]
  {
    hide IsChar, DecodeHead, Repaired;
    if t == [] {
      WholeChar(c);
      assert c + t == c;
    } else {
      RepairedAfter(c, t);
    }
  }

  lemma RepairedAfter(c: seq<Byte>, t: seq<Byte>)
    requires t != [] && IsStart(t[0])
    ensures Repaired(c + t) == c + Repaired(t)
  {
    hide DecodeHead;
    RewindAfter(c, t, |t|);
    var whole, last := c + t, Rewind(t, |t|);
    assert Rewind(whole, |whole|) == |c| + last;
    assert whole[|c| + last..] == t[last..];
    if DecodeHead(t[last..]).0 == -1 {
      assert Repaired(whole) == whole[..|c| + last];
      assert Repaired(t) == t[..last];
    }
  }

  lemma FirstIsStart(s: seq<Byte>)
    requires WellFormed(s) && s != []
    ensures IsStart(s[0])
  {
  }

  /** In a character only the first octet is a start octet. */
  lemma {:induction false} RewindInChar(c: seq<Byte>, k: nat)
    requires IsChar(c) && 1 <= k <= |c|
    ensures Rewind(c, k) == 0
  {
    if k > 1 {
      assert !IsStart(c[k - 1]);
      RewindInChar(c, k - 1);
    }
  }

  lemma CutChar(c: seq<Byte>, n: nat)
    requires IsChar(c) && 1 <= n < |c|
    ensures Repaired(c[..n]) == []
  {
    CharLength(c);
    RewindInChar(c, n);
    RewindPrefix(c[..n], c, n);
    assert c[..n][0..] == c[..n];
    assert c[..n][0] == c[0];
  }

  lemma WholeChar(c: seq<Byte>)
    requires IsChar(c)
    ensures Repaired(c) == c
  {
    CharLength(c);
    RewindInChar(c, |c|);
    assert c[0..] == c && c[..|c|] == c;
    CompleteAt(c, |c|);
  }

  /** As many characters as octets is no limit. */
  lemma {:induction false} StepsCharsEnough(s: seq<Byte>, room: nat, m: nat, n: nat)
    requires room <= m && room <= n
    ensures Steps(s, room, m) == Steps(s, room, n)
    decreases |s|
  {
    hide DecodeHead;
    if Steps(s, room, m) != 0 || Steps(s, room, n) != 0 {
      var k := DecodeHead(s).1;
      if k <= room {
        StepsCharsEnough(s[k..], room - k, m - 1, n - 1);
      }
    }
  }

  lemma {:induction false} CharsAtMostOctets(s: seq<Byte>)
    ensures |DecodeAll(s)| <= |s|
    decreases |s|
  {
    if s != [] {
      CharsAtMostOctets(s[DecodeHead(s).1..]);
    }
  }

  /** A cut and repaired well-formed text is its longest prefix that fits. */
  lemma RepairedIsLongestFit(s: seq<Byte>, n: nat)
    requires WellFormed(s) && n <= |s|
    ensures IsLongestFit(s, n, Repaired(s[..n]))
  {
    RepairedIsSteps(s, n);
    StepsAreLongest(s, n, n);
    forall p | p <= s && |p| <= n && WellFormed(p)
      ensures |p| <= |Repaired(s[..n])|
    {
      CharsAtMostOctets(p);
      assert IsWhole(s, n, n, p);
    }
  }

  function Min(a: nat, b: nat): nat {
    if a < b then a else b
  }

  /** `strncat` onto the empty string. */
  method CopyOctets(dst: array<Byte>, src: seq<Byte>, room: nat)
    requires 0 in src && Min(StrLength(src), room) < dst.Length
    modifies dst
    ensures 0 in dst[..] && Text(dst[..]) == Text(src)[..Min(|Text(src)|, room)]
    ensures var n := Min(|Text(src)|, room); dst[n + 1..] == old(dst[n + 1..])
  {
    hide StrLength;
    var n := 0;
    ghost var s := Text(src);
    while n < room && src[n] != 0
      invariant n <= room && n <= |s|
      invariant dst[..n] == s[..n]
      invariant forall k :: n <= k < dst.Length ==> dst[k] == old(dst[k])
    {
      dst[n] := src[n];
      n := n + 1;
    }
    dst[n] := 0;
    assert dst[n + 1..] == old(dst[n + 1..]);
    assert dst[..n] == s[..n];
    TextIs(dst[..], n);
  }

  /** `dst_size - 1`, passed on as a `size_t`: the octets a copy has room for. */
  function Room(dstSize: int): (room: nat)
    requires -0x8000_0000 <= dstSize < 0x8000_0000
    ensures dstSize >= 1 ==> room == dstSize - 1
    ensures dstSize < 1 ==> room >= 0x8000_0000
  {
    if dstSize >= 1 then dstSize - 1 else dstSize - 1 + 0x1_0000_0000_0000_0000
  }

  /** `str_copy` */
  method Copy(dst: array<Byte>, src: seq<Byte>, dstSize: int) returns (len: nat)
    requires -0x8000_0000 <= dstSize < 0x8000_0000
    requires 0 in src && Min(StrLength(src), Room(dstSize)) < dst.Length
    modifies dst
    ensures 0 in dst[..] && len == |Text(dst[..])|
    ensures Text(dst[..]) == Repaired(Text(src)[..Min(|Text(src)|, Room(dstSize))])
    ensures WellFormed(Text(src)) ==> IsLongestFit(Text(src), Room(dstSize), Text(dst[..]))
    ensures var n := Min(|Text(src)|, Room(dstSize)); dst[n + 1..] == old(dst[n + 1..])
  {
    hide DecodeHead, IsChar, WellFormed, IsLongestFit, Repaired, StrLength, Room;
    ghost var s, room := Text(src), Room(dstSize);
    CopyOctets(dst, src, Room(dstSize));
    ghost var n := Min(|s|, room);
    ghost var behind := dst[n + 1..];
    len := FixTruncation(dst);
    assert dst[n + 1..] == behind;
    if WellFormed(s) {
      RepairedIsLongestFit(s, Min(|s|, room));
      LongestFitWhenShort(s, room, Text(dst[..]));
    }
  }

  lemma LongestFitWhenShort(s: seq<Byte>, bytes: nat, r: seq<Byte>)
    requires IsLongestFit(s, Min(|s|, bytes), r)
    ensures IsLongestFit(s, bytes, r)
  {
  }

  /** The loop of `str_append` and the terminator behind it. */
  method AppendOctets(dst: array<Byte>, src: seq<Byte>, dstSize: nat)
    requires 1 <= dstSize <= dst.Length && 0 in dst[..] && 0 in src
    modifies dst
    ensures 0 in dst[..]
    ensures var whole := old(Text(dst[..])) + Text(src); Text(dst[..]) == whole[..Min(|whole|, dstSize - 1)]
    ensures dst[dstSize..] == old(dst[dstSize..])
  {
    hide StrLength;
    ghost var head, tail := Text(dst[..]), Text(src);
    ghost var whole := head + tail;
    var s := StrLength(dst[..]);
    var i := 0;
    while s < dstSize
      invariant s == |head| + i && i <= |tail|
      invariant s <= dstSize || i == 0
      invariant dst[..s] == whole[..s]
      invariant dst[dstSize..] == old(dst[dstSize..])
      decreases dstSize - s
    {
      dst[s] := src[i];
      if src[i] == 0 {
        break;
      }
      s := s + 1;
      i := i + 1;
    }
    dst[dstSize - 1] := 0;
    ghost var n := Min(|whole|, dstSize - 1);
    assert dst[..n] == whole[..n];
    TextIs(dst[..], n);
  }

  /** `str_append` */
  method Append(dst: array<Byte>, src: seq<Byte>, dstSize: nat)
    requires 1 <= dstSize <= dst.Length && 0 in dst[..] && 0 in src
    modifies dst
    ensures 0 in dst[..]
    ensures var whole := old(Text(dst[..])) + Text(src);
            Text(dst[..]) == Repaired(whole[..Min(|whole|, dstSize - 1)])
    ensures var whole := old(Text(dst[..])) + Text(src);
            WellFormed(old(Text(dst[..]))) && WellFormed(Text(src)) ==> IsLongestFit(whole, dstSize - 1, Text(dst[..]))
    ensures dst[dstSize..] == old(dst[dstSize..])
  {
    hide DecodeHead, IsChar, WellFormed, IsLongestFit, Repaired, StrLength;
    hide Text;
    ghost var head, tail := Text(dst[..]), Text(src);
    ghost var whole := head + tail;
    AppendOctets(dst, src, dstSize);
    ghost var behind := dst[dstSize..];
    var _ := FixTruncation(dst);
    assert dst[dstSize..] == behind;
    if WellFormed(head) && WellFormed(tail) {
      WellFormedAppend(head, tail);
      RepairedIsLongestFit(whole, Min(|whole|, dstSize - 1));
      LongestFitWhenShort(whole, dstSize - 1, Text(dst[..]));
    }
  }

  /** The loop of `str_utf8_truncate`; without room or with a negative limit it is not entered. */
  method TruncatedSize(src: seq<Byte>, dstSize: int, truncationLen: int) returns (size: int)
    requires 0 in src
    ensures size >= 0 <==> dstSize >= 1 && truncationLen >= 0
    ensures size == if size >= 0 then Steps(Text(src), dstSize - 1, truncationLen) else -1
  {
    hide DecodeHead, IsChar, Text, StrLength, Steps;
    ghost var s := Text(src);
    var cursor: nat, pos: nat := 0, 0;
    size := -1;
    assert src[0..] == src && s[0..] == s;
    ghost var k := Steps(s, dstSize - 1, truncationLen);
    while pos <= truncationLen && cursor < dstSize && size != cursor
      invariant size < cursor <= |s|
      invariant size == -1 ==> cursor == 0 && pos == 0
      invariant size >= 0 ==> dstSize >= 1 && truncationLen >= 0
      invariant 0 in src[cursor..] && Text(src[cursor..]) == s[cursor..]
      invariant pos <= truncationLen && cursor < dstSize ==>
                  k == cursor + Steps(s[cursor..], dstSize - 1 - cursor, truncationLen - pos)
      invariant size >= 0 && !(pos <= truncationLen && cursor < dstSize) ==> size == k
      decreases |s| - cursor
    {
      size := cursor;
      var code, next := DecodeStep(src, cursor);
      HeadIsZero(s[cursor..]);
      StepsCases(s[cursor..], dstSize - 1 - cursor, truncationLen - pos);
      if code == 0 {
        break;
      }
      TextOfRest(src, next);
      assert s[cursor..][next - cursor..] == s[next..];
      pos := pos + 1;
      cursor := next;
    }
  }

  /** What `str_utf8_truncate` leaves of a text. */
  function Truncated(s: seq<Byte>, dstSize: int, truncationLen: int): seq<Byte> {
    if dstSize >= 1 && truncationLen >= 0 then Repaired(s[..Steps(s, dstSize - 1, truncationLen)])
    else Repaired(s[..Min(|s|, Room(0))])
  }

  /** With its NUL it fits the buffer if and only if there is room and the limit is not negative, or the text would fit
      anyway. (No text in memory is longer than a `size_t` can say.) */
  lemma TruncatedFitsIff(s: seq<Byte>, dstSize: int, truncationLen: int)
    requires WellFormed(s) && |s| <= Room(0)
    ensures |Truncated(s, dstSize, truncationLen)| < dstSize <==> (dstSize >= 1 && truncationLen >= 0) || |s| < dstSize
  {
    hide WellFormed, Steps, Repaired;
    if !(dstSize >= 1 && truncationLen >= 0) {
      assert s[..|s|] == s;
      WholeNeedsNoRepair(s, |s|);
    }
  }

  /** With a limit of -1 characters "ab" is left whole, and does not fit the two octets it is given. */
  lemma NegativeLimitIgnoresSize()
    ensures var s: seq<Byte> := [97, 98]; WellFormed(s) && Truncated(s, 2, -1) == s
  {
    var s: seq<Byte> := [97, 98];
    assert s[..2] == s && s[1..] == [98] && s[1..][1..] == [];
    WellFormedUnfolds(s);
    WellFormedUnfolds(s[1..]);
    WholeNeedsNoRepair(s, 2);
  }

  /** `str_utf8_truncate`. With a negative limit it copies all of `src`, whatever `dstSize` says. */
  method Truncate(dst: array<Byte>, dstSize: int, src: seq<Byte>, truncationLen: int)
    requires 0 in src && dstSize < 0x8000_0000
    requires if dstSize >= 1 && truncationLen >= 0 then dstSize <= dst.Length else StrLength(src) < dst.Length
    modifies dst
    ensures 0 in dst[..]
    ensures Text(dst[..]) == Truncated(Text(src), dstSize, truncationLen)
    ensures WellFormed(Text(src)) && dstSize >= 1 && truncationLen >= 0 ==>
              IsLongestWhole(Text(src), dstSize - 1, truncationLen, Text(dst[..]))
  {
    hide DecodeHead, IsChar, WellFormed, IsLongestFit, IsLongestWhole, Repaired, StrLength;
    ghost var s := Text(src);
    var size := TruncatedSize(src, dstSize, truncationLen);
    var _ := Copy(dst, src, size + 1);
    if WellFormed(s) && size >= 0 {
      StepsAreLongest(s, dstSize - 1, truncationLen);
      WholeNeedsNoRepair(s, size);
    }
  }

  lemma WholeNeedsNoRepair(s: seq<Byte>, k: nat)
    requires k <= |s| && WellFormed(s[..k])
    ensures Repaired(s[..k]) == s[..k]
  {
    RepairedIsLongestFit(s[..k], k);
    assert s[..k][..k] == s[..k];
  }
}
