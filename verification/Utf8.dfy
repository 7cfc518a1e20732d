/** The UTF-8 routines of src/base/system.cpp, proved against `Utf8Standard`. */
module Utf8 {
  import opened CString
  import opened Utf8Standard

  /** `p` begins some character without finishing it. */
  predicate IsPartial(p: seq<Byte>) {
    && 1 <= |p| < HeadLength(p[0])
    && 0xC2 <= p[0] <= 0xF4
    && (|p| >= 2 ==> SecondLow(p[0]) <= p[1] <= SecondHigh(p[0]))
    && (|p| >= 3 ==> IsTail(p[2]))
  }

  function SecondLow(b: Byte): int {
    if b == 0xE0 then 0xA0 else if b == 0xF0 then 0x90 else 0x80
  }

  function SecondHigh(b: Byte): int {
    if b == 0xED then 0x9F else if b == 0xF4 then 0x8F else 0xBF
  }

  /** `IsPartial` is about characters of the grammar: the proper non-empty prefixes of them, no more. */
  lemma PartialExtends(p: seq<Byte>)
    ensures IsPartial(p) <==> p != [] && exists t :: t != [] && IsChar(p + t)
  {
    if IsPartial(p) {
      var second := SecondLow(p[0]) as Byte;
      var n := HeadLength(p[0]);
      var t: seq<Byte> :=
        if |p| == 1 then [second] + seq(n - 2, _ => 0x80) else seq(n - |p|, _ => 0x80);
      assert n == 2 ==> t == [second];
      assert IsChar(p + t);
    }
    if p != [] && exists t :: t != [] && IsChar(p + t) {
      var t :| t != [] && IsChar(p + t);
      CharLength(p + t);
      assert (p + t)[0] == p[0];
      assert |p| >= 2 ==> (p + t)[1] == p[1];
      assert |p| >= 3 ==> (p + t)[2] == p[2];
    }
  }

  /** The first octets of `s` are a character. */
  predicate StartsWithChar(s: seq<Byte>) {
    s != [] && HeadLength(s[0]) <= |s| && IsChar(s[..HeadLength(s[0])])
  }

  /** How much of `s` goes with one decoding error: the longest prefix that begins a character, or one octet. */
  function ErrorLength(s: seq<Byte>): (n: nat)
    requires s != []
    ensures 1 <= n <= 3 && n <= |s|
  {
    if |s| >= 3 && IsPartial(s[..3]) then 3 else if |s| >= 2 && IsPartial(s[..2]) then 2 else 1
  }

  lemma ErrorIsLongest(s: seq<Byte>, n: nat)
    requires s != [] && n <= |s| && IsPartial(s[..n])
    ensures n <= ErrorLength(s) && (ErrorLength(s) > 1 ==> IsPartial(s[..ErrorLength(s)]))
  {
  }

  /** The first decoding step on the text `s`: the character or -1 for an error or 0 at the end,
      and how many octets it takes (the terminator counts as one). */
  function DecodeHead(s: seq<Byte>): (r: (int, nat))
    ensures 1 <= r.1 <= 4 && (s != [] ==> r.1 <= |s|)
  {
    if s == [] then (0, 1)
    else if StartsWithChar(s) then (Decode(s[..HeadLength(s[0])]), HeadLength(s[0]))
    else (-1, ErrorLength(s))
  }

  /** `c << (6 * n)` */
  function Shift6(c: int, n: nat): int
    requires n <= 3
  {
    if n == 0 then c else if n == 1 then c * 0x40 else if n == 2 then c * 0x1000 else c * 0x4_0000
  }

  // The state of the decoder after the octets `p`.

  function Lower(p: seq<Byte>): int {
    if |p| == 1 then SecondLow(p[0]) else 0x80
  }

  function Upper(p: seq<Byte>): int {
    if |p| == 1 then SecondHigh(p[0]) else 0xBF
  }

  function LeadBits(b: Byte): int {
    b as int - (if b < 0xE0 then 0xC0 else if b < 0xF0 then 0xE0 else 0xF0)
  }

  function CodeSoFar(p: seq<Byte>): int
    requires 1 <= |p| <= HeadLength(p[0])
  {
    if |p| == 1 then Shift6(LeadBits(p[0]), HeadLength(p[0]) - 1)
    else CodeSoFar(p[..|p| - 1]) + Shift6(p[|p| - 1] as int - 0x80, HeadLength(p[0]) - |p|)
  }

  lemma ExtendPartial(p: seq<Byte>, b: Byte)
    requires IsPartial(p) && Lower(p) <= b <= Upper(p)
    ensures |p| + 1 < HeadLength(p[0]) ==> IsPartial(p + [b])
    ensures |p| + 1 == HeadLength(p[0]) ==> IsChar(p + [b])
  {
  }

  lemma CodeOfChar(s: seq<Byte>)
    requires IsChar(s) && |s| > 1
    ensures CodeSoFar(s) == Decode(s)
  {
    CharLength(s);
    if |s| == 2 {
      assert s[..1] == [s[0]];
    } else if |s| == 3 {
      assert s[..2][..1] == s[..1] == [s[0]];
      assert CodeSoFar(s[..2]) == CodeSoFar(s[..1]) + Shift6(s[1] as int - 0x80, 1);
    } else {
      assert s[..3][..2] == s[..2] && s[..2][..1] == s[..1] == [s[0]];
      assert CodeSoFar(s[..3]) == CodeSoFar(s[..2]) + Shift6(s[2] as int - 0x80, 1);
      assert CodeSoFar(s[..2]) == CodeSoFar(s[..1]) + Shift6(s[1] as int - 0x80, 2);
    }
  }

  /** An octet that cannot continue `s[..k]` ends the step before that octet. */
  lemma StopsAt(s: seq<Byte>, k: nat)
    requires 1 <= k <= |s| && IsPartial(s[..k])
    requires !(Lower(s[..k]) <= At(s, k) <= Upper(s[..k]))
    ensures DecodeHead(s) == (-1, k)
  {
    assert |s| >= 2 && k >= 1 ==> s[..2][0] == s[0];
    if k < |s| && HeadLength(s[0]) <= |s| {
      var c := s[..HeadLength(s[0])];
      assert c[k] == s[k];
    }
  }

  lemma CompleteAt(s: seq<Byte>, n: nat)
    requires n <= |s| && IsChar(s[..n])
    ensures DecodeHead(s) == (Decode(s[..n]), n)
  {
    CharLength(s[..n]);
  }

  lemma BadLead(s: seq<Byte>)
    requires s != [] && 0x80 <= s[0] && !(0xC2 <= s[0] <= 0xF4)
    ensures DecodeHead(s) == (-1, 1)
  {
    var n := HeadLength(s[0]);
    assert n <= |s| ==> s[..n][0] == s[0];
  }

  lemma AsciiLead(s: seq<Byte>)
    requires At(s, 0) <= 0x7F
    ensures DecodeHead(s) == (At(s, 0) as int, 1)
  {
  }

  /** `str_utf8_decode` */
  method DecodeStep(str: seq<Byte>, ptr: nat) returns (code: int, next: nat)
    requires ptr < |str| && 0 in str[ptr..]
    ensures (code, next - ptr) == DecodeHead(Text(str[ptr..]))
    ensures ptr < next <= |str|
  {
    hide IsPartial, IsChar, Decode, DecodeHead, Shift6;
    next := ptr;
    var lower, upper := 0x80, 0xBF;
    var seen, needed := 0, 0;
    code := 0;
    ghost var s := Text(str[ptr..]);
    while true
      invariant 0 <= next - ptr <= |s|
      invariant needed == 0 <==> next == ptr
      invariant needed == 0 ==> seen == 0 && lower == 0x80 && upper == 0xBF
      invariant needed != 0 ==> needed == HeadLength(s[0]) - 1 && 0 <= seen == next - ptr - 1 < needed
      invariant needed != 0 ==>
        var p := s[..seen + 1]; IsPartial(p) && lower == Lower(p) && upper == Upper(p) && code == CodeSoFar(p)
      decreases ptr + |s| - next
    {
      ghost var k := next - ptr;
      var byte := str[next];
      assert byte == At(s, k);
      next := next + 1;
      if needed == 0 {
        if byte <= 0x7F {
          AsciiLead(s);
          code := byte;
          return;
        } else if 0xC2 <= byte <= 0xDF {
          needed := 1;
          code := byte - 0xC0;
        } else if 0xE0 <= byte <= 0xEF {
          if byte == 0xE0 {
            lower := 0xA0;
          }
          if byte == 0xED {
            upper := 0x9F;
          }
          needed := 2;
          code := byte - 0xE0;
        } else if 0xF0 <= byte <= 0xF4 {
          if byte == 0xF0 {
            lower := 0x90;
          }
          if byte == 0xF4 {
            upper := 0x8F;
          }
          needed := 3;
          code := byte - 0xF0;
        } else {
          BadLead(s);
          code := -1;
          return;
        }
        code := Shift6(code, needed);
        LeadIsPartial(s[..1]);
        continue;
      }
      if !(lower <= byte <= upper) {
        StopsAt(s, k);
        next := next - 1;
        code := -1;
        return;
      }
      ExtendPartial(s[..k], byte);
      assert s[..k] + [byte] == s[..k + 1] && s[..k + 1][..k] == s[..k];
      lower, upper := 0x80, 0xBF;
      seen := seen + 1;
      code := code + Shift6(byte - 0x80, needed - seen);
      if seen != needed {
        continue;
      }
      CodeOfChar(s[..k + 1]);
      CompleteAt(s, k + 1);
      return;
    }
  }

  lemma LeadIsPartial(p: seq<Byte>)
    requires |p| == 1 && 0xC2 <= p[0] <= 0xF4
    ensures IsPartial(p)
  {
  }

  /** Every decoding step of a text, errors included. */
  function DecodeAll(s: seq<Byte>): (cs: seq<int>)
    decreases |s|
  {
    if s == [] then [] else
      var (c, n) := DecodeHead(s);
      [c] + DecodeAll(s[n..])
  }

  /** On well-formed text the program decodes what RFC 3629 says; an error shows up exactly on other text. */
  lemma {:induction false} DecodeAllMatchesStandard(s: seq<Byte>)
    ensures WellFormed(s) ==> DecodeAll(s) == DecodeWellFormed(s)
    ensures -1 in DecodeAll(s) <==> !WellFormed(s)
    decreases |s|
  {
    hide IsChar, Decode;
    if s != [] {
      var (c, n) := DecodeHead(s);
      DecodeAllMatchesStandard(s[n..]);
    }
  }

  /** Decoding undoes encoding. */
  lemma DecodeAllEncodeAll(cs: seq<int>)
    requires AllScalar(cs)
    ensures DecodeAll(EncodeAll(cs)) == cs
  {
    EncodeAllWellFormed(cs);
    DecodeAllMatchesStandard(EncodeAll(cs));
  }

  lemma {:induction false} EncodeAllIsText(cs: seq<int>)
    requires AllScalar(cs)
    ensures IsText(EncodeAll(cs)) <==> 0 !in cs
  {
    if cs != [] {
      EncodeAllIsText(cs[1..]);
      assert 0 in Encode(cs[0]) <==> cs[0] == 0;
      assert cs == [cs[0]] + cs[1..];
      assert 0 in cs <==> cs[0] == 0 || 0 in cs[1..];
    }
  }

  /** As a NUL-terminated string the encodings decode to the characters exactly if U+0000 is not among them. */
  lemma EncodedStringDecodesIff(cs: seq<int>)
    requires AllScalar(cs)
    ensures var str := EncodeAll(cs) + [0];
            0 in str && (DecodeAll(Text(str)) == cs <==> 0 !in cs)
  {
    hide DecodeAll, EncodeAll, Text, StrLength;
    var str := EncodeAll(cs) + [0];
    assert str[|EncodeAll(cs)|] == 0;
    EncodeAllIsText(cs);
    if 0 !in cs {
      assert str[..|EncodeAll(cs)|] == EncodeAll(cs);
      TextIs(str, |EncodeAll(cs)|);
      DecodeAllEncodeAll(cs);
    } else if DecodeAll(Text(str)) == cs {
      DecodeAllMatchesStandard(Text(str));
    }
  }

  /** A step sees 0 only at the terminator. */
  lemma HeadIsZero(s: seq<Byte>)
    requires IsText(s)
    ensures DecodeHead(s).0 == 0 <==> s == []
  {
    if s != [] && StartsWithChar(s) {
      var c := s[..HeadLength(s[0])];
      EncodeDecode(c);
      assert c[0] == s[0] && s[0] in s;
    }
  }

  /** `str_utf8_check`: 1 exactly for well-formed text. */
  method Check(str: seq<Byte>) returns (ok: bool)
    requires 0 in str
    ensures ok <==> WellFormed(Text(str))
  {
    hide IsChar, Decode, Text, StrLength;
    var ptr := 0;
    assert str[0..] == str;
    while true
      invariant 0 <= ptr <= StrLength(str) && 0 in str[ptr..]
      invariant Text(str[ptr..]) == Text(str)[ptr..]
      invariant WellFormed(Text(str)) <==> WellFormed(Text(str)[ptr..])
      decreases StrLength(str) - ptr
    {
      ghost var s := Text(str)[ptr..];
      var code, next := DecodeStep(str, ptr);
      HeadIsZero(s);
      if code == 0 {
        return true;
      }
      if code == -1 {
        return false;
      }
      TextOfRest(str, next);
      assert Text(str)[next..] == s[next - ptr..];
      ptr := next;
    }
  }

  /** What `str_utf8_encode` writes; it does not look for surrogates. */
  function EncodedBytes(chr: int): (s: seq<Byte>) {
    if chr <= 0x7F then [chr % 0x100]
    else if chr <= 0x7FF then [0xC0 + chr / 0x40 % 0x20, 0x80 + chr % 0x40]
    else if chr <= 0xFFFF then [0xE0 + chr / 0x1000 % 0x10, 0x80 + chr / 0x40 % 0x40, 0x80 + chr % 0x40]
    else if chr <= 0x10FFFF then
      [0xF0 + chr / 0x4_0000 % 0x08, 0x80 + chr / 0x1000 % 0x40, 0x80 + chr / 0x40 % 0x40, 0x80 + chr % 0x40]
    else []
  }

  /** The decoder reads back exactly the characters RFC 3629 allows (and -1, which it also uses for errors). */
  lemma EncodedBytesDecode(chr: int)
    ensures IsScalar(chr) ==> EncodedBytes(chr) == Encode(chr)
    ensures DecodeHead(EncodedBytes(chr)) == (chr, |EncodedBytes(chr)|) <==> IsScalar(chr) || chr == -1
  {
    var s := EncodedBytes(chr);
    if IsScalar(chr) {
      EncodedBytesAreStandard(chr);
      hide EncodedBytes, Encode, IsChar, DecodeHead;
      EncodeIsChar(chr);
      CompleteAt(s, |s|);
      assert s[..|s|] == s;
    } else if chr <= 0x10FFFF {
      assert chr == -1 ==> s == [0xFF];
      hide EncodedBytes, IsChar, Decode;
      assert DecodeHead(s).0 == -1 || IsScalar(DecodeHead(s).0);
      if chr == -1 {
        BadLead(s);
      }
    }
  }

  /** Surrogates are written like their neighbours, as the three octets that stand for the number; numbers that are no
      characters at all as nothing, or, when negative, as one octet. */
  lemma SurrogateBytes(chr: int)
    requires !IsScalar(chr)
    ensures var s := EncodedBytes(chr);
            if chr > 0x10FFFF then s == []
            else if chr < 0 then s == [chr % 0x100]
            else |s| == 3 && s[0] == 0xED && 0xA0 <= s[1] <= 0xBF && IsTail(s[2]) &&
                 chr == 0xD000 + (s[1] as int - 0x80) * 0x40 + (s[2] as int - 0x80)
  {
  }

  lemma EncodedBytesAreStandard(chr: int)
    requires IsScalar(chr)
    ensures EncodedBytes(chr) == Encode(chr)
  {
  }

  /** `str_utf8_encode` */
  method EncodeInto(ptr: array<Byte>, chr: int) returns (size: nat)
    requires |EncodedBytes(chr)| <= ptr.Length
    modifies ptr
    ensures size == |EncodedBytes(chr)| && ptr[..size] == EncodedBytes(chr)
    ensures ptr[size..] == old(ptr[size..])
  {
    if chr <= 0x7F {
      ptr[0] := chr % 0x100;
      return 1;
    } else if chr <= 0x7FF {
      ptr[0] := 0xC0 + chr / 0x40 % 0x20;
      ptr[1] := 0x80 + chr % 0x40;
      return 2;
    } else if chr <= 0xFFFF {
      ptr[0] := 0xE0 + chr / 0x1000 % 0x10;
      ptr[1] := 0x80 + chr / 0x40 % 0x40;
      ptr[2] := 0x80 + chr % 0x40;
      return 3;
    } else if chr <= 0x10FFFF {
      ptr[0] := 0xF0 + chr / 0x4_0000 % 0x08;
      ptr[1] := 0x80 + chr / 0x1000 % 0x40;
      ptr[2] := 0x80 + chr / 0x40 % 0x40;
      ptr[3] := 0x80 + chr % 0x40;
      return 4;
    }
    return 0;
  }
}
