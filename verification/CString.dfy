/** Bytes and NUL-terminated strings. A `const char *` is the sequence of bytes it points into. */
module CString {
  type Byte = x: int | 0 <= x < 256

  /** The bytes of an ASCII literal. */
  function Ascii(s: string): (bytes: seq<Byte>)
    ensures |bytes| == |s|
  {
    seq(|s|, i requires 0 <= i < |s| => s[i] as int % 256)
  }

  /** A string without its terminator. */
  ghost predicate IsText(s: seq<Byte>) {
    0 !in s
  }

  /** `str_length`: the position of the first NUL. */
  function StrLength(str: seq<Byte>): (n: nat)
    requires 0 in str
    ensures n < |str| && str[n] == 0 && IsText(str[..n])
  {
    if str[0] == 0 then 0 else
      assert str == [str[0]] + str[1..];
      assert str[..1 + StrLength(str[1..])] == [str[0]] + str[1..][..StrLength(str[1..])];
      1 + StrLength(str[1..])
  }

  /** The text of a NUL-terminated string. */
  function Text(str: seq<Byte>): (s: seq<Byte>)
    requires 0 in str
    ensures |s| == StrLength(str) && IsText(s) && s + [0] <= str
  {
    str[..StrLength(str)]
  }

  /** The first NUL is where the text ends. */
  lemma {:induction false} TextIs(str: seq<Byte>, n: nat)
    requires n < |str| && str[n] == 0 && IsText(str[..n])
    ensures StrLength(str) == n && Text(str) == str[..n]
  {
    if n > 0 {
      assert str[..n][0] == str[0] && str[1..][..n - 1] == str[..n][1..];
      TextIs(str[1..], n - 1);
    }
  }

  /** Dropping a part of the text drops it from the text. */
  lemma TextOfRest(str: seq<Byte>, n: nat)
    requires 0 in str && n <= StrLength(str)
    ensures 0 in str[n..] && Text(str[n..]) == Text(str)[n..]
  {
    hide StrLength;
    var k := StrLength(str);
    assert str[n..][k - n] == 0;
    assert str[n..][..k - n] == str[..k][n..];
    TextIs(str[n..], k - n);
  }

  /** The byte at `i`, where the terminator stands behind the text. */
  function At(s: seq<Byte>, i: nat): Byte {
    if i < |s| then s[i] else 0
  }
}
