/** Base64 as RFC 4648 section 4 defines it, by 24-bit groups. Characters are their octets. */
module Base64Standard {
  import opened CString

  const PAD: Byte := 61

  /** Table 1: the character of a 6-bit value. */
  function Digit(v: nat): (c: Byte)
    requires v < 64
    ensures c != PAD && c != 0
  {
    if v < 26 then 65 + v else if v < 52 then 97 + (v - 26) else if v < 62 then 48 + (v - 52)
    else if v == 62 then 43 else 47
  }

  /** They are A to Z, a to z, 0 to 9, the plus sign and the slash, and the equals sign for padding. */
  lemma DigitIsCharacter(v: nat)
    requires v < 64
    ensures v < 26 ==> Digit(v) == 'A' as int + v
    ensures 26 <= v < 52 ==> Digit(v) == 'a' as int + (v - 26)
    ensures 52 <= v < 62 ==> Digit(v) == '0' as int + (v - 52)
    ensures Digit(62) == '+' as int && Digit(63) == '/' as int && PAD == '=' as int
  {
  }

  /** One group of three octets. */
  function EncodeGroup(x: Byte, y: Byte, z: Byte): (q: seq<Byte>)
    ensures |q| == 4
  {
    var group: nat := x * 0x1_0000 + y * 0x100 + z;
    [Digit(group / 0x4_0000), Digit(group / 0x1000 % 64), Digit(group / 64 % 64), Digit(group % 64)]
  }

  function EncodedLength(n: nat): (len: nat)
    ensures n <= len && len % 4 == 0
  {
    if n == 0 then 0 else if n <= 3 then 4 else 4 + EncodedLength(n - 3)
  }

  lemma {:induction false} EncodedLengthIs(n: nat)
    ensures EncodedLength(n) == (n + 2) / 3 * 4
  {
    if n > 3 {
      EncodedLengthIs(n - 3);
      assert (n - 3 + 2) / 3 == (n + 2) / 3 - 1;
    }
  }

  /** The whole encoding; a short last group is filled with zero bits and marked with padding. */
  function Encode(d: seq<Byte>): (s: seq<Byte>)
    ensures |s| == EncodedLength(|d|)
  {
    if |d| == 0 then []
    else if |d| == 1 then EncodeGroup(d[0], 0, 0)[..2] + [PAD, PAD]
    else if |d| == 2 then EncodeGroup(d[0], d[1], 0)[..3] + [PAD]
    else EncodeGroup(d[0], d[1], d[2]) + Encode(d[3..])
  }

  lemma {:induction false} EncodeIsText(d: seq<Byte>)
    ensures IsText(Encode(d))
  {
    if |d| >= 3 {
      EncodeIsText(d[3..]);
    }
  }

  // The example "foobar" of section 10 is "Zm9vYmFy", and "fo" is "Zm8=".

  lemma GroupIs(x: Byte, y: Byte, z: Byte, v0: nat, v1: nat, v2: nat, v3: nat)
    requires v0 < 64 && v1 < 64 && v2 < 64 && v3 < 64
    requires x * 0x1_0000 + y * 0x100 + z == ((v0 * 64 + v1) * 64 + v2) * 64 + v3
    ensures EncodeGroup(x, y, z) == [Digit(v0), Digit(v1), Digit(v2), Digit(v3)]
  {
    hide Digit;
    var g1 := v0 * 64 + v1;
    var g2 := g1 * 64 + v2;
    var g3 := g2 * 64 + v3;
    assert g3 / 64 == g2 && g2 / 64 == g1 && g1 / 64 == v0;
    assert g3 / 0x1000 == g3 / 64 / 64 && g3 / 0x4_0000 == g3 / 0x1000 / 64;
  }

  lemma Groups()
    ensures EncodeGroup(102, 111, 111) == [90, 109, 57, 118] && EncodeGroup(98, 97, 114) == [89, 109, 70, 121]
    ensures EncodeGroup(102, 111, 0) == [90, 109, 56, 65]
  {
    GroupIs(102, 111, 111, 25, 38, 61, 47);
    GroupIs(98, 97, 114, 24, 38, 5, 50);
    GroupIs(102, 111, 0, 25, 38, 60, 0);
    hide EncodeGroup;
  }

  lemma Example(d: seq<Byte>)
    requires d == [102, 111, 111, 98, 97, 114]
    ensures Encode(d) == [90, 109, 57, 118] + [89, 109, 70, 121] && Encode(d[..2]) == [90, 109, 56, PAD]
  {
    hide EncodeGroup;
    Groups();
    var e := d[3..];
    assert |e| == 3 && e[0] == 98 && e[1] == 97 && e[2] == 114 && e[3..] == [];
    assert Encode(e) == EncodeGroup(e[0], e[1], e[2]) + Encode(e[3..]) == [89, 109, 70, 121];
    assert Encode(d) == EncodeGroup(d[0], d[1], d[2]) + Encode(e);
  }
}
