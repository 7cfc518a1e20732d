/** Base64 of src/base/system.cpp: a bit-accumulating encoder that may run out of room, and a strict decoder. */
module Base64 {
  import opened CString
  import opened Base64Standard

  /** The sextet of character `o` of the encoding, straight from the data. */
  function Sextet(d: seq<Byte>, o: nat): (v: nat)
    ensures v < 64
  {
    var k := o / 4 * 3;
    if o % 4 == 0 then At(d, k) / 4
    else if o % 4 == 1 then At(d, k) % 4 * 16 + At(d, k + 1) / 16
    else if o % 4 == 2 then At(d, k + 1) % 16 * 4 + At(d, k + 2) / 64
    else At(d, k + 2) % 64
  }

  /** Character `o` of the encoding, if there is one. */
  function CharAt(d: seq<Byte>, o: nat): Byte {
    if o % 4 >= 2 && o / 4 * 3 + o % 4 - 1 >= |d| then PAD else Digit(Sextet(d, o))
  }

  lemma GroupSextets(x: Byte, y: Byte, z: Byte)
    ensures EncodeGroup(x, y, z) ==
            [Digit(x / 4), Digit(x % 4 * 16 + y / 16), Digit(y % 16 * 4 + z / 64), Digit(z % 64)]
  {
    var group: nat := x * 0x1_0000 + y * 0x100 + z;
    var x1, x0, y1, y0, z1, z0 := x / 4, x % 4, y / 16, y % 16, z / 64, z % 64;
    assert group == 0x4_0000 * x1 + 0x1000 * (x0 * 16 + y1) + 64 * (y0 * 4 + z1) + z0;
    Sextets(x1, x0 * 16 + y1, y0 * 4 + z1, z0);
  }

  lemma Sextets(s3: nat, s2: nat, s1: nat, s0: nat)
    requires s2 < 64 && s1 < 64 && s0 < 64
    ensures var g := 0x4_0000 * s3 + 0x1000 * s2 + 64 * s1 + s0;
            g % 64 == s0 && g / 64 % 64 == s1 && g / 0x1000 % 64 == s2 && g / 0x4_0000 == s3
  {
    var g := 0x4_0000 * s3 + 0x1000 * s2 + 64 * s1 + s0;
    assert g / 64 == 0x1000 * s3 + 64 * s2 + s1;
    assert g / 0x1000 == 64 * s3 + s2;
  }

  /** The encoding, character by character. */
  lemma {:induction false} EncodeAt(d: seq<Byte>, o: nat)
    requires o < |Encode(d)|
    ensures Encode(d)[o] == CharAt(d, o)
    decreases |d|
  {
    if o < 4 {
      EncodeAtFirst(d, o);
    } else {
      hide Digit, EncodeGroup, CharAt;
      EncodeAt(d[3..], o - 4);
      CharAtShift(d, o);
    }
  }

  lemma EncodeAtFirst(d: seq<Byte>, o: nat)
    requires o < 4 && d != []
    ensures Encode(d)[o] == CharAt(d, o)
  {
    hide Digit, EncodeGroup;
    GroupSextets(At(d, 0), At(d, 1), At(d, 2));
  }

  lemma CharAtShift(d: seq<Byte>, o: nat)
    requires |d| >= 3 && o >= 4
    ensures CharAt(d[3..], o - 4) == CharAt(d, o)
  {
    hide Digit;
    assert (o - 4) / 4 == o / 4 - 1 && (o - 4) % 4 == o % 4;
  }

  // The accumulator of the encoder: `value` is a 32-bit unsigned number.

  function PushOctet(value: nat, octet: Byte): (v: nat)
    ensures v < 0x1_0000_0000
  {
    (value * 0x100 + octet) % 0x1_0000_0000
  }

  // The low bits after eight more; `lost` is what falls off the top.

  lemma PushedOntoNone(value: nat, octet: Byte)
    ensures PushOctet(value, octet) % 0x100 == octet
  {
    var lost := (value * 0x100 + octet) / 0x1_0000_0000;
    var k := value - 0x100_0000 * lost;
    assert PushOctet(value, octet) == 0x100 * k + octet;
  }

  lemma PushedOntoTwo(value: nat, octet: Byte)
    ensures PushOctet(value, octet) % 0x400 == value % 4 * 0x100 + octet
  {
    var lost := (value * 0x100 + octet) / 0x1_0000_0000;
    var h, l := value / 4, value % 4;
    assert value == 4 * h + l;
    var k := h - 0x40_0000 * lost;
    assert PushOctet(value, octet) == 0x400 * k + (0x100 * l + octet);
  }

  lemma PushedOntoFour(value: nat, octet: Byte)
    ensures PushOctet(value, octet) % 0x1000 == value % 16 * 0x100 + octet
  {
    var lost := (value * 0x100 + octet) / 0x1_0000_0000;
    var h, l := value / 16, value % 16;
    assert value == 16 * h + l;
    var k := h - 0x10_0000 * lost;
    assert PushOctet(value, octet) == 0x1000 * k + (0x100 * l + octet);
  }

  // The top six of the eight, ten or twelve pending bits, and what stays behind.

  lemma TakeFromEight(v: nat)
    ensures v / 4 % 64 == v % 0x100 / 4 && v % 0x100 % 4 == v % 4
  {
    var q, r := v / 0x100, v % 0x100;
    assert v == 0x100 * q + r;
    assert v / 4 == 64 * q + r / 4;
  }

  lemma TakeFromTen(v: nat)
    ensures v / 16 % 64 == v % 0x400 / 16 && v % 0x400 % 16 == v % 16
  {
    var q, r := v / 0x400, v % 0x400;
    assert v == 0x400 * q + r;
    assert v / 16 == 64 * q + r / 16;
  }

  lemma TakeFromTwelve(v: nat)
    ensures v / 64 % 64 == v % 0x1000 / 64 && v % 0x1000 % 64 == v % 64
  {
    var q, r := v / 0x1000, v % 0x1000;
    assert v == 0x1000 * q + r;
    assert v / 64 == 64 * q + r / 64;
  }

  // The last two or four bits, filled up with zeros.

  lemma PadTwo(v: nat)
    ensures v * 16 % 64 == v % 4 * 16
  {
    var h, l := v / 4, v % 4;
    assert v * 16 == 64 * h + 16 * l;
  }

  lemma PadFour(v: nat)
    ensures v * 4 % 64 == v % 16 * 4
  {
    var h, l := v / 16, v % 16;
    assert v * 4 == 64 * h + 4 * l;
  }

  /** `num_bits` before character `o`, when there are data enough. */
  function PendingBits(o: nat): nat {
    if o % 4 == 0 then 0 else if o % 4 == 1 then 2 else if o % 4 == 2 then 4 else 6
  }

  /** How many octets the first `o` characters need. */
  function OctetsUsed(o: nat): nat {
    o / 4 * 3 + o % 4
  }

  /** The state of the encoder before character `o`. */
  ghost predicate Accumulated(d: seq<Byte>, o: nat, i: nat, numBits: int, value: nat) {
    if OctetsUsed(o) <= |d| then
      i == OctetsUsed(o) && numBits == PendingBits(o) &&
      (o % 4 == 1 ==> value % 4 == d[i - 1] % 4) &&
      (o % 4 == 2 ==> value % 16 == d[i - 1] % 16) &&
      (o % 4 == 3 ==> value % 64 == d[i - 1] % 64)
    else
      i == |d| && numBits <= 0 && o <= |Encode(d)| && o > 0 && (o < |Encode(d)| <==> o % 4 != 0)
  }

  lemma PositionInEncoding(n: nat, o: nat)
    ensures o < EncodedLength(n) <==> o / 4 * 3 < n
  {
    EncodedLengthIs(n);
  }

  /** The accumulator after the read at the top of the loop. */
  function ReadOctet(d: seq<Byte>, i: nat, numBits: int, value: nat): (nat, int, nat) {
    if numBits < 6 && i < |d| then (i + 1, numBits + 8, PushOctet(value, d[i])) else (i, numBits, value)
  }

  /** The sextet that is written next. */
  function NextSextet(numBits: int, value: nat): (v: nat)
    requires numBits in {2, 4, 6, 8, 10, 12}
    ensures v < 64
  {
    if numBits == 12 then value / 64 % 64
    else if numBits == 10 then value / 16 % 64
    else if numBits == 8 then value / 4 % 64
    else if numBits == 6 then value % 64
    else if numBits == 4 then value * 4 % 64
    else value * 16 % 64
  }

  // What the next sextet is, by the number of pending bits; `prev` is the octet read before.

  lemma EightBits(value: nat, octet: Byte)
    ensures var v := PushOctet(value, octet); NextSextet(8, v) == octet / 4 && v % 4 == octet % 4
  {
    PushedOntoNone(value, octet);
    TakeFromEight(PushOctet(value, octet));
  }

  lemma TenBits(value: nat, prev: Byte, octet: Byte)
    requires value % 4 == prev % 4
    ensures var v := PushOctet(value, octet); NextSextet(10, v) == prev % 4 * 16 + octet / 16 && v % 16 == octet % 16
  {
    PushedOntoTwo(value, octet);
    TakeFromTen(PushOctet(value, octet));
  }

  lemma TwelveBits(value: nat, prev: Byte, octet: Byte)
    requires value % 16 == prev % 16
    ensures var v := PushOctet(value, octet); NextSextet(12, v) == prev % 16 * 4 + octet / 64 && v % 64 == octet % 64
  {
    PushedOntoFour(value, octet);
    TakeFromTwelve(PushOctet(value, octet));
  }

  lemma TwoBits(value: nat, prev: Byte)
    requires value % 4 == prev % 4
    ensures NextSextet(2, value) == prev % 4 * 16
  {
    PadTwo(value);
  }

  lemma FourBits(value: nat, prev: Byte)
    requires value % 16 == prev % 16
    ensures NextSextet(4, value) == prev % 16 * 4
  {
    PadFour(value);
  }

  /** One digit of the encoding leaves the accumulator. */
  ghost predicate EmitsDigit(d: seq<Byte>, o: nat, i: nat, numBits: int, value: nat) {
    var (i', bits, v) := ReadOctet(d, i, numBits, value);
    bits > 0 ==>
      && bits in {2, 4, 6, 8, 10, 12} && o < |Encode(d)|
      && Encode(d)[o] == Digit(NextSextet(bits, v))
      && Accumulated(d, o + 1, i', bits - 6, v)
  }

  lemma Group(d: seq<Byte>, k: nat)
    ensures OctetsUsed(4 * k + 1) == 3 * k + 1 && OctetsUsed(4 * k + 2) == 3 * k + 2
    ensures OctetsUsed(4 * k + 3) == 3 * k + 3
    ensures PendingBits(4 * k + 1) == 2 && PendingBits(4 * k + 2) == 4 && PendingBits(4 * k + 3) == 6
    ensures CharAt(d, 4 * k + 1) == Digit(At(d, 3 * k) % 4 * 16 + At(d, 3 * k + 1) / 16)
    ensures 3 * k + 1 < |d| ==> CharAt(d, 4 * k + 2) == Digit(At(d, 3 * k + 1) % 16 * 4 + At(d, 3 * k + 2) / 64)
  {
    hide Digit;
    assert (4 * k + 1) / 4 == k && (4 * k + 1) % 4 == 1;
    assert (4 * k + 2) / 4 == k && (4 * k + 2) % 4 == 2;
    assert (4 * k + 3) / 4 == k && (4 * k + 3) % 4 == 3;
  }

  lemma FirstDigit(d: seq<Byte>, o: nat, i: nat, numBits: int, value: nat)
    requires Accumulated(d, o, i, numBits, value) && o % 4 == 0
    ensures EmitsDigit(d, o, i, numBits, value)
  {
    PositionInEncoding(|d|, o);
    if i < |d| {
      EncodeAt(d, o);
      hide Digit, Encode, PushOctet, EncodedLength;
      EightBits(value, d[i]);
      hide NextSextet;
    }
  }

  lemma SecondDigit(d: seq<Byte>, o: nat, i: nat, numBits: int, value: nat)
    requires Accumulated(d, o, i, numBits, value) && o % 4 == 1
    ensures EmitsDigit(d, o, i, numBits, value)
  {
    hide Digit, Encode, PushOctet, EncodedLength, CharAt, OctetsUsed, PendingBits, NextSextet;
    PositionInEncoding(|d|, o);
    PositionInEncoding(|d|, o + 1);
    var k := o / 4;
    Group(d, k);
    assert o == 4 * k + 1;
    if numBits > 0 {
      EncodeAt(d, o);
      if i < |d| {
        TenBits(value, d[i - 1], d[i]);
      } else {
        TwoBits(value, d[i - 1]);
      }
    }
  }

  lemma ThirdDigit(d: seq<Byte>, o: nat, i: nat, numBits: int, value: nat)
    requires Accumulated(d, o, i, numBits, value) && o % 4 == 2
    ensures EmitsDigit(d, o, i, numBits, value)
  {
    hide Digit, Encode, PushOctet, EncodedLength, CharAt, OctetsUsed, PendingBits, NextSextet;
    PositionInEncoding(|d|, o);
    PositionInEncoding(|d|, o + 1);
    var k := o / 4;
    Group(d, k);
    assert o == 4 * k + 2;
    if numBits > 0 {
      EncodeAt(d, o);
      if i < |d| {
        TwelveBits(value, d[i - 1], d[i]);
      } else {
        FourBits(value, d[i - 1]);
      }
    }
  }

  lemma FourthDigit(d: seq<Byte>, o: nat, i: nat, numBits: int, value: nat)
    requires Accumulated(d, o, i, numBits, value) && o % 4 == 3
    ensures EmitsDigit(d, o, i, numBits, value)
  {
    PositionInEncoding(|d|, o);
    if numBits > 0 {
      EncodeAt(d, o);
      hide Digit, Encode, PushOctet, EncodedLength;
    }
  }

  lemma DigitStep(d: seq<Byte>, o: nat, i: nat, numBits: int, value: nat)
    requires Accumulated(d, o, i, numBits, value)
    ensures EmitsDigit(d, o, i, numBits, value)
  {
    hide EmitsDigit, Accumulated;
    if o % 4 == 0 {
      FirstDigit(d, o, i, numBits, value);
    } else if o % 4 == 1 {
      SecondDigit(d, o, i, numBits, value);
    } else if o % 4 == 2 {
      ThirdDigit(d, o, i, numBits, value);
    } else {
      FourthDigit(d, o, i, numBits, value);
    }
  }

  /** Without pending bits there is padding to write or the encoding is complete. */
  lemma PaddingStep(d: seq<Byte>, o: nat, i: nat, numBits: int, value: nat)
    requires Accumulated(d, o, i, numBits, value) && ReadOctet(d, i, numBits, value).1 <= 0
    ensures ReadOctet(d, i, numBits, value) == (i, numBits, value)
    ensures o % 4 == 0 ==> o == |Encode(d)|
    ensures o % 4 != 0 ==> o < |Encode(d)| && Encode(d)[o] == PAD && Accumulated(d, o + 1, i, numBits, value)
  {
    PositionInEncoding(|d|, o);
    PositionInEncoding(|d|, o + 1);
    if o % 4 != 0 {
      EncodeAt(d, o);
    } else if o > 0 {
      PositionInEncoding(|d|, o - 1);
    }
    hide Encode, PushOctet, EncodedLength;
  }

  /** `str_base64` */
  method EncodeInto(dst: array<Byte>, dstSize: nat, data: seq<Byte>)
    requires 1 <= dstSize <= dst.Length
    modifies dst
    ensures 0 in dst[..]
    ensures Text(dst[..]) == Encode(data)[..if |Encode(data)| < dstSize then |Encode(data)| else dstSize - 1]
    ensures dst[dstSize..] == old(dst[dstSize..])
  {
    hide Encode, EncodedLength, Accumulated, Digit, PushOctet, StrLength;
    var value, numBits, i, o := 0, 0, 0, 0;
    var size := dstSize - 1;
    dst[size] := 0;
    Start(data);
    EncodeIsText(data);
    ghost var e := Encode(data);
    while true
      invariant 0 <= o <= size && o <= |e| && i <= |data|
      invariant Accumulated(data, o, i, numBits, value)
      invariant dst[..o] == e[..o] && dst[size] == 0
      invariant dst[dstSize..] == old(dst[dstSize..])
      decreases size - o
    {
      DigitStep(data, o, i, numBits, value);
      ghost var read := ReadOctet(data, i, numBits, value);
      if read.1 <= 0 {
        PaddingStep(data, o, i, numBits, value);
      }
      if numBits < 6 && i < |data| {
        value := PushOctet(value, data[i]);
        numBits := numBits + 8;
        i := i + 1;
      }
      assert (i, numBits, value) == read;
      if o == size {
        assert dst[..size] == e[..size];
        TextIs(dst[..], size);
        return;
      }
      if numBits > 0 {
        var padded := NextSextet(numBits, value);
        dst[o] := Digit(padded);
        numBits := numBits - 6;
        o := o + 1;
      } else if o % 4 != 0 {
        dst[o] := PAD;
        o := o + 1;
      } else {
        dst[o] := 0;
        assert dst[..o] == e[..o];
        TextIs(dst[..], o);
        return;
      }
    }
  }

  lemma Start(d: seq<Byte>)
    ensures Accumulated(d, 0, 0, 0, 0)
  {
  }

  // The decoder.

  datatype Decoded = Bytes(d: seq<Byte>) | Error(code: int)

  /** `base64_digit_value` */
  function DigitValue(digit: Byte): (v: int)
    ensures -1 <= v < 64
    ensures v >= 0 ==> Digit(v) == digit
    ensures forall w :: 0 <= w < 64 && Digit(w) == digit ==> v == w
  {
    if 65 <= digit <= 90 then digit - 65
    else if 97 <= digit <= 122 then digit - 97 + 26
    else if 48 <= digit <= 57 then digit - 48 + 52
    else if digit == 43 then 62
    else if digit == 47 then 63
    else -1
  }

  /** How many octets the group `q` gives: only the last group of a text may be padded. */
  function OutputBytes(q: seq<Byte>, last: bool): (n: nat)
    requires |q| == 4
    ensures 1 <= n <= 3
  {
    if last && q[3] == PAD then (if q[2] == PAD then 1 else 2) else 3
  }

  /** The digit values of a group, where padding stands for 'A'. */
  function GroupDigit(q: seq<Byte>, last: bool, j: nat): (v: int)
    requires |q| == 4 && j < 4
    ensures -1 <= v < 64
  {
    if j > OutputBytes(q, last) then 0 else DigitValue(q[j])
  }

  function GroupIsValid(q: seq<Byte>, last: bool): bool
    requires |q| == 4
  {
    forall j :: 0 <= j < 4 ==> GroupDigit(q, last, j) != -1
  }

  /** Octet `b` of the 24-bit number of four sextets: `(value >> (16 - 8 * b)) & 0xff`. */
  function OctetOf(v0: nat, v1: nat, v2: nat, v3: nat, b: nat): Byte {
    var value := v0 * 0x4_0000 + v1 * 0x1000 + v2 * 64 + v3;
    (if b == 0 then value / 0x1_0000 else if b == 1 then value / 0x100 else value) % 0x100
  }

  function GroupOctet(q: seq<Byte>, last: bool, b: nat): Byte
    requires |q| == 4 && GroupIsValid(q, last)
  {
    OctetOf(GroupDigit(q, last, 0), GroupDigit(q, last, 1), GroupDigit(q, last, 2), GroupDigit(q, last, 3), b)
  }

  function DecodeGroup(q: seq<Byte>, last: bool): (r: Decoded)
    requires |q| == 4
    ensures r.Bytes? ==> 1 <= |r.d| <= 3
  {
    if !GroupIsValid(q, last) then Error(-1)
    else if exists b :: OutputBytes(q, last) <= b < 3 && GroupOctet(q, last, b) != 0 then Error(-2)
    else Bytes(seq(OutputBytes(q, last), b requires 0 <= b < OutputBytes(q, last) => GroupOctet(q, last, b)))
  }

  /** What the decoder makes of a text of whole groups: the first bad group decides the error. */
  function DecodeGroups(s: seq<Byte>): Decoded
    requires |s| % 4 == 0
  {
    if s == [] then Bytes([])
    else
      var head := DecodeGroup(s[..4], |s| == 4);
      if head.Error? then head
      else
        var tail := DecodeGroups(s[4..]);
        if tail.Error? then tail else Bytes(head.d + tail.d)
  }

  /** The group of the last one, two or three octets. */
  function EncodeShort(d: seq<Byte>): (q: seq<Byte>)
    requires 1 <= |d| <= 3
    ensures |q| == 4
  {
    if |d| == 1 then EncodeGroup(d[0], 0, 0)[..2] + [PAD, PAD]
    else if |d| == 2 then EncodeGroup(d[0], d[1], 0)[..3] + [PAD]
    else EncodeGroup(d[0], d[1], d[2])
  }

  /** Four sextets make three octets, */
  lemma OctetsOfSextets(v0: nat, v1: nat, v2: nat, v3: nat)
    requires v0 < 64 && v1 < 64 && v2 < 64 && v3 < 64
    ensures OctetOf(v0, v1, v2, v3, 0) == v0 * 4 + v1 / 16
    ensures OctetOf(v0, v1, v2, v3, 1) == v1 % 16 * 16 + v2 / 4
    ensures OctetOf(v0, v1, v2, v3, 2) == v2 % 4 * 64 + v3
  {
    var h1, l1, h2, l2 := v1 / 16, v1 % 16, v2 / 4, v2 % 4;
    var x, y, z := v0 * 4 + h1, l1 * 16 + h2, l2 * 64 + v3;
    assert v0 * 0x4_0000 + v1 * 0x1000 + v2 * 64 + v3 == x * 0x1_0000 + y * 0x100 + z;
    ThreeOctets(x, y, z);
  }

  lemma ThreeOctets(x: Byte, y: Byte, z: Byte)
    ensures var value := x * 0x1_0000 + y * 0x100 + z;
            value / 0x1_0000 % 0x100 == x && value / 0x100 % 0x100 == y && value % 0x100 == z
  {
    assert (x * 0x1_0000 + y * 0x100 + z) / 0x100 == x * 0x100 + y;
  }

  /** which give the sextets back, */
  lemma SextetsOfOctets(v0: nat, v1: nat, v2: nat, v3: nat)
    requires v0 < 64 && v1 < 64 && v2 < 64 && v3 < 64
    ensures var x, y, z := v0 * 4 + v1 / 16, v1 % 16 * 16 + v2 / 4, v2 % 4 * 64 + v3;
            x / 4 == v0 && x % 4 * 16 + y / 16 == v1 && y % 16 * 4 + z / 64 == v2 && z % 64 == v3
  {
    var h1, l1, h2, l2 := v1 / 16, v1 % 16, v2 / 4, v2 % 4;
    var x, y, z := v0 * 4 + h1, l1 * 16 + h2, l2 * 64 + v3;
    assert x / 4 == v0 && x % 4 == h1 && y / 16 == l1 && y % 16 == h2 && z / 64 == l2 && z % 64 == v3;
  }

  /** and the other way round. */
  lemma OctetsBack(x: Byte, y: Byte, z: Byte)
    ensures var v0, v1, v2, v3 := x / 4, x % 4 * 16 + y / 16, y % 16 * 4 + z / 64, z % 64;
            OctetOf(v0, v1, v2, v3, 0) == x && OctetOf(v0, v1, v2, v3, 1) == y && OctetOf(v0, v1, v2, v3, 2) == z
  {
    hide OctetOf;
    var x1, x0, y1, y0, z1, z0 := x / 4, x % 4, y / 16, y % 16, z / 64, z % 64;
    var v1, v2 := x0 * 16 + y1, y0 * 4 + z1;
    OctetsOfSextets(x1, v1, v2, z0);
    assert v1 / 16 == x0 && v1 % 16 == y1 && v2 / 4 == y0 && v2 % 4 == z1;
  }

  /** The octets of a valid group encode to its digits, padding read as 'A'. */
  lemma GroupEncodesBack(q: seq<Byte>, last: bool)
    requires |q| == 4 && GroupIsValid(q, last)
    ensures EncodeGroup(GroupOctet(q, last, 0), GroupOctet(q, last, 1), GroupOctet(q, last, 2)) ==
            [Digit(GroupDigit(q, last, 0)), Digit(GroupDigit(q, last, 1)),
             Digit(GroupDigit(q, last, 2)), Digit(GroupDigit(q, last, 3))]
  {
    hide EncodeGroup, Digit, GroupDigit, OctetOf;
    var v0: int, v1: int, v2: int, v3: int :=
      GroupDigit(q, last, 0), GroupDigit(q, last, 1), GroupDigit(q, last, 2), GroupDigit(q, last, 3);
    OctetsOfSextets(v0, v1, v2, v3);
    SextetsOfOctets(v0, v1, v2, v3);
    GroupSextets(GroupOctet(q, last, 0), GroupOctet(q, last, 1), GroupOctet(q, last, 2));
  }

  lemma DecodedGroupEncodes(q: seq<Byte>, last: bool, d: seq<Byte>)
    requires |q| == 4 && DecodeGroup(q, last) == Bytes(d)
    ensures 1 <= |d| <= 3 && q == EncodeShort(d) && (last || |d| == 3)
  {
    hide EncodeGroup, Digit, DigitValue, GroupOctet;
    GroupEncodesBack(q, last);
    var n := OutputBytes(q, last);
    assert n <= 2 ==> GroupOctet(q, last, 2) == 0;
    assert n <= 1 ==> GroupOctet(q, last, 1) == 0;
    assert Digit(GroupDigit(q, last, 0)) == q[0] && Digit(GroupDigit(q, last, 1)) == q[1];
    assert n >= 2 ==> Digit(GroupDigit(q, last, 2)) == q[2];
    assert n >= 3 ==> Digit(GroupDigit(q, last, 3)) == q[3];
  }

  lemma DigitRoundTrip(w: nat)
    requires w < 64
    ensures DigitValue(Digit(w)) == w
  {
  }

  lemma EncodedGroupDecodes(q: seq<Byte>, last: bool, d: seq<Byte>)
    requires 1 <= |d| <= 3 && q == EncodeShort(d) && (last || |d| == 3)
    ensures DecodeGroup(q, last) == Bytes(d)
  {
    hide EncodeGroup, Digit, DigitValue, OctetOf;
    var x, y, z := d[0], At(d, 1), At(d, 2);
    GroupSextets(x, y, z);
    DigitRoundTrip(x / 4);
    DigitRoundTrip(x % 4 * 16 + y / 16);
    DigitRoundTrip(y % 16 * 4 + z / 64);
    DigitRoundTrip(z % 64);
    OctetsBack(x, y, z);
    assert OutputBytes(q, last) == |d|;
    assert GroupIsValid(q, last);
    assert GroupOctet(q, last, 0) == x && GroupOctet(q, last, 1) == y && GroupOctet(q, last, 2) == z;
  }

  lemma {:induction false} DecodedGroupsEncode(s: seq<Byte>, d: seq<Byte>)
    requires |s| % 4 == 0 && DecodeGroups(s) == Bytes(d)
    ensures s == Encode(d)
    decreases |s|
  {
    hide DecodeGroup, EncodeGroup, Digit;
    if s != [] {
      var head := DecodeGroup(s[..4], |s| == 4);
      var tail := DecodeGroups(s[4..]);
      DecodedGroupEncodes(s[..4], |s| == 4, head.d);
      DecodedGroupsEncode(s[4..], tail.d);
      assert s == s[..4] + s[4..];
      if |s| == 4 {
        assert d == head.d + [] == head.d;
        EncodeOneGroup(d);
      } else {
        assert d[3..] == tail.d;
        EncodeMoreGroups(d);
      }
    }
  }

  lemma EncodeOneGroup(d: seq<Byte>)
    requires 1 <= |d| <= 3
    ensures Encode(d) == EncodeShort(d)
  {
    hide EncodeGroup;
    if |d| == 3 {
      assert Encode(d[3..]) == [];
    }
  }

  lemma EncodeMoreGroups(d: seq<Byte>)
    requires |d| >= 3
    ensures Encode(d) == EncodeShort(d[..3]) + Encode(d[3..])
  {
    hide EncodeGroup;
    if |d| == 3 {
      EncodeOneGroup(d);
      assert d[..3] == d && Encode(d[3..]) == [];
    }
  }

  lemma {:induction false} EncodedGroupsDecode(d: seq<Byte>)
    ensures DecodeGroups(Encode(d)) == Bytes(d)
    decreases |d|
  {
    hide DecodeGroup, EncodeGroup, Digit, EncodeShort, Encode;
    var s := Encode(d);
    if |d| == 0 {
    } else if |d| <= 3 {
      EncodeOneGroup(d);
      EncodedGroupDecodes(s, true, d);
      assert s[..4] == s && s[4..] == [];
      assert d + [] == d;
    } else {
      EncodeMoreGroups(d);
      EncodedGroupDecodes(EncodeShort(d[..3]), false, d[..3]);
      assert s[..4] == EncodeShort(d[..3]) && s[4..] == Encode(d[3..]);
      EncodedGroupsDecode(d[3..]);
      assert d[..3] + d[3..] == d;
    }
  }

  /** RFC 4648 section 3.5: the decoder accepts canonical encodings and nothing else. */
  lemma DecodeInvertsEncode(s: seq<Byte>, d: seq<Byte>)
    requires |s| % 4 == 0
    ensures DecodeGroups(s) == Bytes(d) <==> s == Encode(d)
  {
    EncodedGroupsDecode(d);
    if DecodeGroups(s) == Bytes(d) {
      DecodedGroupsEncode(s, d);
    }
  }

  /** The loop body of `str_base64_decode`: one group, written at `o`. */
  method DecodeOneGroup(dst: array<Byte>, o: nat, q: seq<Byte>, last: bool) returns (result: int)
    requires |q| == 4 && o + 3 <= dst.Length
    modifies dst
    ensures DecodeGroup(q, last).Error? ==> result == DecodeGroup(q, last).code
    ensures DecodeGroup(q, last).Bytes? ==> result == o + |DecodeGroup(q, last).d| <= dst.Length
    ensures DecodeGroup(q, last).Bytes? ==> dst[o..result] == DecodeGroup(q, last).d
    ensures dst[..o] == old(dst[..o]) && dst[o + 3..] == old(dst[o + 3..])
  {
    hide DigitValue, OctetOf, Digit;
    var numOutputBytes := OutputBytes(q, last);
    var d := [GroupDigit(q, last, 0), GroupDigit(q, last, 1), GroupDigit(q, last, 2), GroupDigit(q, last, 3)];
    if -1 in d {
      return -1;
    }
    assert GroupIsValid(q, last);
    result := o;
    for b := 0 to 3
      invariant result == o + if b < numOutputBytes then b else numOutputBytes
      invariant dst[o..result] == seq(result - o, j requires 0 <= j < result - o => OctetOf(d[0], d[1], d[2], d[3], j))
      invariant forall j :: numOutputBytes <= j < b ==> GroupOctet(q, last, j) == 0
      invariant dst[..o] == old(dst[..o]) && dst[o + 3..] == old(dst[o + 3..])
    {
      var byte := OctetOf(d[0], d[1], d[2], d[3], b);
      if b < numOutputBytes {
        dst[result] := byte;
        result := result + 1;
      } else if byte != 0 {
        assert GroupOctet(q, last, b) != 0;
        return -2;
      }
    }
  }

  /** `d` in front of what `rest` decodes to. */
  function Prepend(d: seq<Byte>, rest: Decoded): Decoded {
    if rest.Error? then rest else Bytes(d + rest.d)
  }

  lemma DecodeGroupsStep(s: seq<Byte>, d: seq<Byte>)
    requires |s| % 4 == 0 && s != []
    ensures DecodeGroups(s) ==
            var head := DecodeGroup(s[..4], |s| == 4);
            if head.Error? then head else Prepend(head.d, DecodeGroups(s[4..]))
    ensures var head := DecodeGroup(s[..4], |s| == 4);
            head.Bytes? ==> Prepend(d, DecodeGroups(s)) == Prepend(d + head.d, DecodeGroups(s[4..]))
  {
    hide DecodeGroup;
    var head, tail := DecodeGroup(s[..4], |s| == 4), DecodeGroups(s[4..]);
    if head.Bytes? && tail.Bytes? {
      assert d + (head.d + tail.d) == d + head.d + tail.d;
    }
  }

  /** The loop of `str_base64_decode`. */
  method DecodeLoop(dst: array<Byte>, data: seq<Byte>, dataLen: nat) returns (result: int)
    requires dataLen <= |data| && dataLen % 4 == 0 && dataLen / 4 * 3 <= dst.Length
    modifies dst
    ensures DecodeGroups(data[..dataLen]).Error? ==> result == DecodeGroups(data[..dataLen]).code
    ensures DecodeGroups(data[..dataLen]).Bytes? ==>
              0 <= result <= dataLen / 4 * 3 && Bytes(dst[..result]) == DecodeGroups(data[..dataLen])
    ensures dst[dataLen / 4 * 3..] == old(dst[dataLen / 4 * 3..])
  {
    hide DecodeGroup, DecodeGroups;
    ghost var s := data[..dataLen];
    var o, i := 0, 0;
    assert s[0..] == s;
    PrependNothing(DecodeGroups(s), []);
    while i < dataLen
      invariant i % 4 == 0 && i <= dataLen && 0 <= o <= i / 4 * 3
      invariant DecodeGroups(s) == Prepend(dst[..o], DecodeGroups(s[i..]))
      invariant dst[dataLen / 4 * 3..] == old(dst[dataLen / 4 * 3..])
    {
      var copy := data[i..i + 4];
      assert copy == s[i..][..4] && s[i..][4..] == s[i + 4..];
      assert (i + 4) / 4 == i / 4 + 1 && (i + 4) / 4 <= dataLen / 4;
      ghost var before := dst[..o];
      DecodeGroupsStep(s[i..], before);
      var r := DecodeOneGroup(dst, o, copy, i == dataLen - 4);
      if DecodeGroup(copy, i == dataLen - 4).Error? {
        return r;
      }
      assert dst[..r] == before + DecodeGroup(copy, i == dataLen - 4).d;
      o, i := r, i + 4;
    }
    assert s[i..] == [];
    PrependNothing(Bytes(dst[..o]), dst[..o]);
    return o;
  }

  lemma PrependNothing(r: Decoded, d: seq<Byte>)
    ensures Prepend([], r) == r
    ensures Prepend(d, DecodeGroups([])) == Bytes(d)
  {
    assert d + [] == d;
  }

  /** `str_base64_decode` */
  method DecodeInto(dst: array<Byte>, dstSize: nat, data: seq<Byte>) returns (result: int)
    requires dstSize <= dst.Length && 0 in data
    modifies dst
    ensures result == DecodeResult(Text(data), dstSize)
    ensures result >= 0 ==> result <= dstSize && Text(data) == Encode(dst[..result])
    ensures result < 0 ==> forall d :: Text(data) == Encode(d) ==> |Encode(d)| / 4 * 3 > dstSize
    ensures dst[dstSize..] == old(dst[dstSize..])
  {
    hide DecodeGroup, DecodeGroups, Encode, StrLength;
    ghost var s := Text(data);
    var dataLen := StrLength(data);
    if dataLen % 4 != 0 {
      return -3;
    }
    if dataLen / 4 * 3 > dstSize {
      return -2;
    }
    result := DecodeLoop(dst, data, dataLen);
    assert dst[dstSize..] == dst[dataLen / 4 * 3..][dstSize - dataLen / 4 * 3..];
    if DecodeGroups(s).Error? {
      ErrorIsNegative(s);
      NotAnEncoding(s);
    } else {
      DecodedGroupsEncode(s, dst[..result]);
    }
  }

  lemma {:induction false} ErrorIsNegative(s: seq<Byte>)
    requires |s| % 4 == 0
    ensures DecodeGroups(s).Error? ==> DecodeGroups(s).code in {-1, -2}
    decreases |s|
  {
    if s != [] {
      ErrorIsNegative(s[4..]);
    }
  }

  /** The return value of the decoder: a length, or the error of the first check that fails. */
  function DecodeResult(s: seq<Byte>, dstSize: nat): int {
    if |s| % 4 != 0 then -3
    else if |s| / 4 * 3 > dstSize then -2
    else match DecodeGroups(s) case Bytes(d) => |d| case Error(code) => code
  }

  lemma NotAnEncoding(s: seq<Byte>)
    requires |s| % 4 == 0 && DecodeGroups(s).Error?
    ensures forall d :: s != Encode(d)
  {
    forall d
      ensures s != Encode(d)
    {
      EncodedGroupsDecode(d);
    }
  }
}
