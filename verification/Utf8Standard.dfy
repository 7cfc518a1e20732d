/** UTF-8 as RFC 3629 defines it: the encoding of section 3 and the grammar of section 4. */
module Utf8Standard {
  import opened CString

  /** The characters UTF-8 can encode: no surrogates, nothing above U+10FFFF. */
  predicate IsScalar(c: int) {
    0 <= c <= 0x10FFFF && !(0xD800 <= c <= 0xDFFF)
  }

  /** Section 3: the octets of one character. */
  function Encode(c: int): (s: seq<Byte>)
    requires IsScalar(c)
    ensures 1 <= |s| <= 4
  {
    if c <= 0x7F then [c]
    else if c <= 0x7FF then [0xC0 + c / 0x40, 0x80 + c % 0x40]
    else if c <= 0xFFFF then [0xE0 + c / 0x1000, 0x80 + c / 0x40 % 0x40, 0x80 + c % 0x40]
    else [0xF0 + c / 0x4_0000, 0x80 + c / 0x1000 % 0x40, 0x80 + c / 0x40 % 0x40, 0x80 + c % 0x40]
  }

  ghost predicate AllScalar(cs: seq<int>) {
    forall c :: c in cs ==> IsScalar(c)
  }

  function EncodeAll(cs: seq<int>): seq<Byte>
    requires AllScalar(cs)
  {
    if cs == [] then [] else Encode(cs[0]) + EncodeAll(cs[1..])
  }

  predicate IsTail(b: Byte) {
    0x80 <= b <= 0xBF
  }

  /** Section 4: `UTF8-1 / UTF8-2 / UTF8-3 / UTF8-4`. */
  predicate IsChar(s: seq<Byte>) {
    || (|s| == 1 && s[0] <= 0x7F)
    || (|s| == 2 && 0xC2 <= s[0] <= 0xDF && IsTail(s[1]))
    || (|s| == 3 && s[0] == 0xE0 && 0xA0 <= s[1] <= 0xBF && IsTail(s[2]))
    || (|s| == 3 && 0xE1 <= s[0] <= 0xEC && IsTail(s[1]) && IsTail(s[2]))
    || (|s| == 3 && s[0] == 0xED && 0x80 <= s[1] <= 0x9F && IsTail(s[2]))
    || (|s| == 3 && 0xEE <= s[0] <= 0xEF && IsTail(s[1]) && IsTail(s[2]))
    || (|s| == 4 && s[0] == 0xF0 && 0x90 <= s[1] <= 0xBF && IsTail(s[2]) && IsTail(s[3]))
    || (|s| == 4 && 0xF1 <= s[0] <= 0xF3 && IsTail(s[1]) && IsTail(s[2]) && IsTail(s[3]))
    || (|s| == 4 && s[0] == 0xF4 && 0x80 <= s[1] <= 0x8F && IsTail(s[2]) && IsTail(s[3]))
  }

  /** The number of octets the first octet announces. */
  function HeadLength(b: Byte): (n: nat)
    ensures 1 <= n <= 4
  {
    if b < 0xC0 then 1 else if b < 0xE0 then 2 else if b < 0xF0 then 3 else 4
  }

  lemma CharLength(s: seq<Byte>)
    requires IsChar(s)
    ensures |s| == HeadLength(s[0])
  {
  }

  /** Section 4: `UTF8-octets = *( UTF8-char )`. */
  predicate WellFormed(s: seq<Byte>)
    decreases |s|
  {
    s == [] ||
    (HeadLength(s[0]) <= |s| && IsChar(s[..HeadLength(s[0])]) && WellFormed(s[HeadLength(s[0])..]))
  }

  /** The character an octet sequence of the grammar stands for. */
  function Decode(s: seq<Byte>): (c: int)
    requires IsChar(s)
    ensures IsScalar(c)
    ensures |s| == 1 <==> c <= 0x7F
    ensures |s| <= 2 <==> c <= 0x7FF
    ensures |s| <= 3 <==> c <= 0xFFFF
  {
    var b0: int, b1: int, b2: int, b3: int := At(s, 0), At(s, 1), At(s, 2), At(s, 3);
    if |s| == 1 then b0
    else if |s| == 2 then (b0 - 0xC0) * 0x40 + (b1 - 0x80)
    else if |s| == 3 then (b0 - 0xE0) * 0x1000 + (b1 - 0x80) * 0x40 + (b2 - 0x80)
    else (b0 - 0xF0) * 0x4_0000 + (b1 - 0x80) * 0x1000 + (b2 - 0x80) * 0x40 + (b3 - 0x80)
  }

  lemma DigitsOf(d3: nat, d2: nat, d1: nat, d0: nat)
    requires d2 < 0x40 && d1 < 0x40 && d0 < 0x40
    ensures var c := d3 * 0x4_0000 + d2 * 0x1000 + d1 * 0x40 + d0;
            c / 0x4_0000 == d3 && c / 0x1000 == d3 * 0x40 + d2 && c / 0x1000 % 0x40 == d2 &&
            c / 0x40 == d3 * 0x1000 + d2 * 0x40 + d1 && c / 0x40 % 0x40 == d1 && c % 0x40 == d0
  {
    var c := d3 * 0x4_0000 + d2 * 0x1000 + d1 * 0x40 + d0;
    assert c / 0x1000 == c / 0x40 / 0x40;
    assert c / 0x4_0000 == c / 0x1000 / 0x40;
  }

  lemma EncodeDigits(d3: nat, d2: nat, d1: nat, d0: nat)
    requires d2 < 0x40 && d1 < 0x40 && d0 < 0x40
    requires IsScalar(d3 * 0x4_0000 + d2 * 0x1000 + d1 * 0x40 + d0)
    ensures var c := d3 * 0x4_0000 + d2 * 0x1000 + d1 * 0x40 + d0;
            Encode(c) ==
            if c <= 0x7F then [c] else if c <= 0x7FF then [0xC0 + d1, 0x80 + d0]
            else if c <= 0xFFFF then [0xE0 + d2, 0x80 + d1, 0x80 + d0]
            else [0xF0 + d3, 0x80 + d2, 0x80 + d1, 0x80 + d0]
  {
    DigitsOf(d3, d2, d1, d0);
  }

  lemma EncodeDecode(s: seq<Byte>)
    requires IsChar(s)
    ensures Encode(Decode(s)) == s
  {
    hide Encode;
    var b0: int, b1: int, b2: int, b3: int := At(s, 0), At(s, 1), At(s, 2), At(s, 3);
    if |s| == 1 {
      EncodeDigits(0, 0, b0 / 0x40, b0 % 0x40);
    } else if |s| == 2 {
      EncodeDigits(0, 0, b0 - 0xC0, b1 - 0x80);
    } else if |s| == 3 {
      EncodeDigits(0, b0 - 0xE0, b1 - 0x80, b2 - 0x80);
    } else {
      EncodeDigits(b0 - 0xF0, b1 - 0x80, b2 - 0x80, b3 - 0x80);
    }
  }

  /** The grammar of section 4 is exactly the image of the encoding of section 3. */
  lemma EncodeIsChar(c: int)
    requires IsScalar(c)
    ensures IsChar(Encode(c)) && Decode(Encode(c)) == c
  {
    var d0, d1, d2, d3 := c % 0x40, c / 0x40 % 0x40, c / 0x1000 % 0x40, c / 0x4_0000;
    SixBitDigits(c);
    if c <= 0x7F {
    } else if c <= 0x7FF {
      assert Encode(c) == [0xC0 + c / 0x40, 0x80 + d0];
    } else if c <= 0xFFFF {
      assert Encode(c) == [0xE0 + c / 0x1000, 0x80 + d1, 0x80 + d0];
    } else {
      assert Encode(c) == [0xF0 + d3, 0x80 + d2, 0x80 + d1, 0x80 + d0];
    }
  }

  lemma SixBitDigits(c: nat)
    ensures c == c / 0x40 * 0x40 + c % 0x40
    ensures c == c / 0x1000 * 0x1000 + c / 0x40 % 0x40 * 0x40 + c % 0x40
    ensures c == c / 0x4_0000 * 0x4_0000 + c / 0x1000 % 0x40 * 0x1000 + c / 0x40 % 0x40 * 0x40 + c % 0x40
  {
    assert c / 0x1000 == c / 0x40 / 0x40;
    assert c / 0x4_0000 == c / 0x1000 / 0x40;
  }

  function DecodeWellFormed(s: seq<Byte>): (cs: seq<int>)
    requires WellFormed(s)
    ensures AllScalar(cs) && EncodeAll(cs) == s
    decreases |s|
  {
    if s == [] then []
    else
      var n := HeadLength(s[0]);
      var c := Decode(s[..n]);
      EncodeDecode(s[..n]);
      assert s == s[..n] + s[n..];
      [c] + DecodeWellFormed(s[n..])
  }

  lemma {:induction false} EncodeAllWellFormed(cs: seq<int>)
    requires AllScalar(cs)
    ensures WellFormed(EncodeAll(cs)) && DecodeWellFormed(EncodeAll(cs)) == cs
  {
    if cs != [] {
      var s := EncodeAll(cs);
      EncodeIsChar(cs[0]);
      CharLength(Encode(cs[0]));
      assert s[..HeadLength(s[0])] == Encode(cs[0]);
      assert s[HeadLength(s[0])..] == EncodeAll(cs[1..]);
      EncodeAllWellFormed(cs[1..]);
      assert cs == [cs[0]] + cs[1..];
    }
  }

  lemma {:induction false} WellFormedAppend(s: seq<Byte>, t: seq<Byte>)
    requires WellFormed(s) && WellFormed(t)
    ensures WellFormed(s + t)
    decreases |s|
  {
    hide IsChar;
    if s == [] {
      assert s + t == t;
    } else {
      var n := HeadLength(s[0]);
      WellFormedAppend(s[n..], t);
      assert (s + t)[..n] == s[..n] && (s + t)[n..] == s[n..] + t;
    }
  }
}
