/** The legacy string packing of src/game/gamecore.cpp: four characters in an `int`, most significant first,
    each with its sign bit flipped. */
module PackedString {
  import opened CString
  import opened Utf8Standard
  import Utf8

  type Int32 = x: int | -0x8000_0000 <= x < 0x8000_0000

  /** A 32-bit pattern read as an `int`. */
  function ToInt32(u: nat): Int32
    requires u < 0x1_0000_0000
  {
    if u < 0x8000_0000 then u else u - 0x1_0000_0000
  }

  /** A signed character plus or minus 128. */
  function Flip(b: Byte): Byte {
    (b + 128) % 256
  }

  /** The `i`-th integer of the text `s` among `numInts` integers. */
  function PackedInt(s: seq<Byte>, numInts: nat, i: nat): Int32
    requires i < numInts
  {
    var last := if i == numInts - 1 then 0 else Flip(At(s, 4 * i + 3)) as int;
    ToInt32(Flip(At(s, 4 * i)) * 0x100_0000 + Flip(At(s, 4 * i + 1)) * 0x1_0000 + Flip(At(s, 4 * i + 2)) * 0x100 + last)
  }

  /** `(x >> (24 - 8 * c)) & 0xff` */
  function Octet(x: Int32, c: nat): Byte
    requires c < 4
  {
    (if c == 0 then x / 0x100_0000 else if c == 1 then x / 0x1_0000 else if c == 2 then x / 0x100 else x) % 256
  }

  /** The character of `ints` at `k`; the last one is always the terminator. */
  function UnpackedByte(ints: seq<Int32>, k: nat): Byte
    requires k < 4 * |ints|
  {
    if k == 4 * |ints| - 1 then 0 else Flip(Octet(ints[k / 4], k % 4))
  }

  function Unpacked(ints: seq<Int32>): (str: seq<Byte>)
    requires |ints| > 0
    ensures |str| == 4 * |ints| && 0 in str
  {
    var str := seq(4 * |ints|, k requires 0 <= k < 4 * |ints| => UnpackedByte(ints, k));
    assert str[4 * |ints| - 1] == 0;
    str
  }

  function Packed(s: seq<Byte>, numInts: nat): (ints: seq<Int32>)
    ensures |ints| == numInts
  {
    seq(numInts, i requires 0 <= i < numInts => PackedInt(s, numInts, i))
  }

  lemma LastOctet(h: int, b: Byte)
    ensures (h * 0x100 + b) / 0x100 == h && (h * 0x100 + b) % 0x100 == b
  {
  }

  /** The octets of a number whose highest one may be negative. */
  lemma Places(h: int, b1: Byte, b2: Byte, b3: Byte)
    ensures var x := h * 0x100_0000 + b1 * 0x1_0000 + b2 * 0x100 + b3;
            && x / 0x100_0000 == h && x / 0x1_0000 % 0x100 == b1 && x / 0x100 % 0x100 == b2 && x % 0x100 == b3
  {
    var z := h * 0x100 + b1;
    var y := z * 0x100 + b2;
    var x := y * 0x100 + b3;
    LastOctet(h, b1);
    LastOctet(z, b2);
    LastOctet(y, b3);
    assert x / 0x1_0000 == x / 0x100 / 0x100 && x / 0x100_0000 == x / 0x1_0000 / 0x100;
  }

  lemma OctetsOf(b0: Byte, b1: Byte, b2: Byte, b3: Byte)
    ensures var x := ToInt32(b0 * 0x100_0000 + b1 * 0x1_0000 + b2 * 0x100 + b3);
            Octet(x, 0) == b0 && Octet(x, 1) == b1 && Octet(x, 2) == b2 && Octet(x, 3) == b3
  {
    var u: int := b0 * 0x100_0000 + b1 * 0x1_0000 + b2 * 0x100 + b3;
    var h := if u < 0x8000_0000 then b0 as int else b0 - 0x100;
    Places(h, b1, b2, b3);
    assert ToInt32(u) == h * 0x100_0000 + b1 * 0x1_0000 + b2 * 0x100 + b3 && h % 0x100 == b0;
  }

  /** The octets of an integer make up its bit pattern. */
  lemma OctetsMake(x: Int32)
    ensures Octet(x, 0) * 0x100_0000 + Octet(x, 1) * 0x1_0000 + Octet(x, 2) * 0x100 + Octet(x, 3) ==
            if x >= 0 then x else x + 0x1_0000_0000
  {
    var y := x / 0x100;
    var z := y / 0x100;
    assert x / 0x1_0000 == z && x / 0x100_0000 == z / 0x100;
    assert x == 0x100 * y + x % 0x100 && y == 0x100 * z + y % 0x100 && z == 0x100 * (z / 0x100) + z % 0x100;
  }

  /** A character as the signed number it is in the program. */
  function Signed(b: Byte): int {
    if b < 128 then b else b - 256
  }

  lemma FlipIsSigned(b: Byte)
    ensures Flip(b) == Signed(b) + 128
    ensures Signed(Flip(b)) == b - 128
  {
  }

  /** In the packed integers stand the signed characters plus 128, four in each, the first one in the highest octet,
      zeros behind the text, and a 0 for the last octet. */
  lemma PackedOctet(s: seq<Byte>, numInts: nat, k: nat)
    requires k < 4 * numInts
    ensures Octet(Packed(s, numInts)[k / 4], k % 4) ==
            if k == 4 * numInts - 1 then 0 else (if k < |s| then Signed(s[k]) else 0) + 128
  {
    hide Octet, ToInt32, Flip;
    var i := k / 4;
    FlipIsSigned(At(s, k));
    var last: Byte := if i == numInts - 1 then 0 else Flip(At(s, 4 * i + 3));
    OctetsOf(Flip(At(s, 4 * i)), Flip(At(s, 4 * i + 1)), Flip(At(s, 4 * i + 2)), last);
    assert Packed(s, numInts)[i] == PackedInt(s, numInts, i);
    assert k == 4 * i + k % 4;
  }

  /** And unpacked are the octets less 128, as signed characters. */
  lemma UnpackedOctet(ints: seq<Int32>, k: nat)
    requires k < 4 * |ints|
    ensures Signed(Unpacked(ints)[k]) == if k == 4 * |ints| - 1 then 0 else Octet(ints[k / 4], k % 4) - 128
  {
    hide Octet, Flip;
    if k < 4 * |ints| - 1 {
      FlipIsSigned(Octet(ints[k / 4], k % 4));
    }
  }

  /** "ab" in one integer. */
  lemma AbIsPacked()
    ensures Packed(Ascii("ab"), 1) == [-505249792]
  {
    assert Ascii("ab") == [97, 98];
  }

  lemma FlipTwice(b: Byte)
    ensures Flip(Flip(b)) == b
  {
  }

  lemma UnpackedBytePacked(s: seq<Byte>, numInts: nat, k: nat)
    requires k < 4 * numInts - 1
    ensures UnpackedByte(Packed(s, numInts), k) == At(s, k)
  {
    hide Octet, ToInt32, Flip;
    var i := k / 4;
    FlipTwice(At(s, k));
    var last: Byte := if i == numInts - 1 then 0 else Flip(At(s, 4 * i + 3));
    OctetsOf(Flip(At(s, 4 * i)), Flip(At(s, 4 * i + 1)), Flip(At(s, 4 * i + 2)), last);
    assert Packed(s, numInts)[i] == PackedInt(s, numInts, i);
    assert k == 4 * i + k % 4;
  }

  /** Unpacking undoes packing for every text that fits, well formed or not. */
  lemma UnpackedPacked(s: seq<Byte>, numInts: nat)
    requires IsText(s) && |s| < 4 * numInts
    ensures Text(Unpacked(Packed(s, numInts))) == s
  {
    hide PackedInt, Octet;
    var str := Unpacked(Packed(s, numInts));
    forall k | 0 <= k < 4 * numInts
      ensures str[k] == At(s, k)
    {
      if k < 4 * numInts - 1 {
        UnpackedBytePacked(s, numInts, k);
      }
    }
    assert str[..|s|] == s;
    TextIs(str, |s|);
  }

  /** `StrToInts` */
  method StrToInts(pInts: array<Int32>, str: seq<Byte>)
    requires pInts.Length > 0 && 0 in str && StrLength(str) + 1 <= pInts.Length * 4
    modifies pInts
    ensures pInts[..] == Packed(Text(str), pInts.Length)
  {
    hide StrLength, ToInt32, Flip;
    var numInts := pInts.Length;
    var strSize := StrLength(str) + 1;
    ghost var s := Text(str);
    for i := 0 to numInts
      invariant forall j :: 0 <= j < i ==> pInts[j] == UnmaskedInt(s, j)
    {
      var buf := new Byte[4](_ => 0);
      var c := 0;
      while c < 4 && i * 4 + c < strSize
        invariant c <= 4
        invariant forall j :: 0 <= j < c ==> buf[j] == At(s, i * 4 + j)
        invariant forall j :: c <= j < 4 ==> buf[j] == 0
        invariant forall j :: 0 <= j < i ==> pInts[j] == UnmaskedInt(s, j)
      {
        buf[c] := str[i * 4 + c];
        c := c + 1;
      }
      assert forall j :: 0 <= j < 4 ==> buf[j] == At(s, 4 * i + j);
      pInts[i] := ToInt32(Flip(buf[0]) * 0x100_0000 + Flip(buf[1]) * 0x1_0000 + Flip(buf[2]) * 0x100 + Flip(buf[3]));
    }
    pInts[numInts - 1] := pInts[numInts - 1] - pInts[numInts - 1] % 0x100;
    MaskLastByte(s, numInts);
    assert pInts[..] == Packed(s, numInts);
  }

  /** Before the last byte of the last integer is masked out. */
  function UnmaskedInt(s: seq<Byte>, i: nat): Int32 {
    ToInt32(Flip(At(s, 4 * i)) * 0x100_0000 + Flip(At(s, 4 * i + 1)) * 0x1_0000 + Flip(At(s, 4 * i + 2)) * 0x100
            + Flip(At(s, 4 * i + 3)))
  }

  lemma MaskLastByte(s: seq<Byte>, numInts: nat)
    requires numInts > 0
    ensures var x := UnmaskedInt(s, numInts - 1); x - x % 0x100 == PackedInt(s, numInts, numInts - 1)
  {
    var k := 4 * (numInts - 1);
    var f0: int, f1: int, f2: int := Flip(At(s, k)), Flip(At(s, k + 1)), Flip(At(s, k + 2));
    MaskLow(f0 * 0x1_0000 + f1 * 0x100 + f2, Flip(At(s, k + 3)));
  }

  lemma MaskLow(high: nat, low: Byte)
    requires high < 0x100_0000
    ensures var x := ToInt32(high * 0x100 + low); x - x % 0x100 == ToInt32(high * 0x100)
  {
  }

  /** `IntsToStr`: always a terminated well-formed string, and an empty one if the integers hold no such text. */
  method IntsToStr(pInts: seq<Int32>, pStr: array<Byte>) returns (ok: bool)
    requires |pInts| > 0 && pStr.Length >= 4 * |pInts|
    modifies pStr
    ensures ok <==> WellFormed(Text(Unpacked(pInts)))
    ensures 0 in pStr[..] && WellFormed(Text(pStr[..]))
    ensures Text(pStr[..]) == if ok then Text(Unpacked(pInts)) else []
  {
    hide Octet, StrLength;
    var strIndex := 0;
    for intIndex := 0 to |pInts|
      invariant strIndex == 4 * intIndex
      invariant forall k :: 0 <= k < strIndex ==> pStr[k] == Flip(Octet(pInts[k / 4], k % 4))
    {
      var currentInt := pInts[intIndex];
      pStr[strIndex] := Flip(Octet(currentInt, 0));
      strIndex := strIndex + 1;
      pStr[strIndex] := Flip(Octet(currentInt, 1));
      strIndex := strIndex + 1;
      pStr[strIndex] := Flip(Octet(currentInt, 2));
      strIndex := strIndex + 1;
      pStr[strIndex] := Flip(Octet(currentInt, 3));
      strIndex := strIndex + 1;
    }
    pStr[strIndex - 1] := 0;
    ghost var raw := Unpacked(pInts);
    assert pStr[..strIndex] == raw;
    SameText(raw, pStr[..]);
    ok := Utf8.Check(pStr[..]);
    if !ok {
      pStr[0] := 0;
      TextIs(pStr[..], 0);
    }
  }

  lemma SameText(raw: seq<Byte>, str: seq<Byte>)
    requires raw <= str && 0 in raw
    ensures 0 in str && Text(str) == Text(raw)
  {
    var n := StrLength(raw);
    assert str[n] == raw[n] && str[..n] == raw[..n];
    TextIs(str, n);
  }

  /** The round trip through both routines succeeds exactly for well-formed text. */
  method RoundTrip(pInts: array<Int32>, str: seq<Byte>, pStr: array<Byte>) returns (ok: bool)
    requires pInts.Length > 0 && 0 in str && StrLength(str) + 1 <= pInts.Length * 4 && pStr.Length >= 4 * pInts.Length
    modifies pInts, pStr
    ensures ok <==> WellFormed(Text(str))
    ensures 0 in pStr[..] && Text(pStr[..]) == if ok then Text(str) else []
  {
    StrToInts(pInts, str);
    UnpackedPacked(Text(str), pInts.Length);
    ok := IntsToStr(pInts[..], pStr);
  }
}
