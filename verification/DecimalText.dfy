/** Numbers in decimal, as `%d` prints them and `parse_int` reads them (src/base/system.cpp). */
module DecimalText {
  import opened CString

  predicate IsDigit(c: Byte) {
    48 <= c <= 57
  }

  predicate IsNumber(n: seq<Byte>) {
    n != [] && forall c :: c in n ==> IsDigit(c)
  }

  function DigitValue(c: Byte): (v: int)
    requires IsDigit(c)
    ensures 0 <= v <= 9
  {
    c - 48
  }

  /** The digits are the characters they look like. */
  lemma DigitIsCharacter(d: nat)
    requires d < 10
    ensures var c := Ascii("0123456789")[d]; IsDigit(c) && DigitValue(c) == d && Decimal(d) == [c]
  {
  }

  /** What a number means. */
  function Value(n: seq<Byte>): (v: int)
    requires forall c :: c in n ==> IsDigit(c)
    ensures v >= 0
  {
    if n == [] then 0
    else
      assert n[|n| - 1] in n;
      10 * Value(n[..|n| - 1]) + DigitValue(n[|n| - 1])
  }

  /** `%d` */
  function Decimal(n: nat): (s: seq<Byte>)
    ensures IsNumber(s) && Value(s) == n
  {
    if n < 10 then [48 + n]
    else
      var s := Decimal(n / 10) + [48 + n % 10];
      assert s[..|s| - 1] == Decimal(n / 10);
      s
  }

  lemma ValueSnoc(n: seq<Byte>, c: Byte)
    requires (forall d :: d in n ==> IsDigit(d)) && IsDigit(c)
    ensures Value(n + [c]) == 10 * Value(n) + DigitValue(c)
  {
    assert (n + [c])[..|n|] == n;
  }

  lemma NoValue()
    ensures Value([]) == 0
  {
  }

  /** Numbers of eight and of sixteen bits have at most three and five digits. */
  lemma ShortNumbers(n: nat)
    ensures n <= 0xFF ==> |Decimal(n)| <= 3
    ensures n <= 0xFFFF ==> |Decimal(n)| <= 5
  {
    hide Value;
    if n <= 0xFFFF {
      assert |Decimal(n / 1000)| <= 2;
      assert |Decimal(n / 100)| <= 3;
      assert |Decimal(n / 10)| <= 4;
    }
  }

  /** The digits at the start of a text. */
  function Digits(s: seq<Byte>): (n: seq<Byte>)
    ensures n <= s && (forall c :: c in n ==> IsDigit(c)) && (|n| < |s| ==> !IsDigit(s[|n|]))
  {
    if s == [] || !IsDigit(s[0]) then [] else [s[0]] + Digits(s[1..])
  }

  lemma {:induction false} DigitsOf(n: seq<Byte>, rest: seq<Byte>)
    requires forall c :: c in n ==> IsDigit(c)
    requires rest != [] ==> !IsDigit(rest[0])
    ensures Digits(n + rest) == n
  {
    hide IsDigit;
    if n == [] {
      assert n + rest == rest;
    } else {
      DigitsOf(n[1..], rest);
      assert (n + rest)[1..] == n[1..] + rest;
    }
  }

  // Numbers in an `int`.

  const INT_LIMIT: int := 0x8000_0000

  lemma {:induction false} ValueGrows(n: seq<Byte>, k: nat)
    requires (forall c :: c in n ==> IsDigit(c)) && k <= |n|
    ensures Value(n[..k]) <= Value(n)
  {
    if k == |n| {
      assert n[..k] == n;
    } else {
      var front := n[..|n| - 1];
      ValueGrows(front, k);
      assert front[..k] == n[..k];
      assert n[|n| - 1] in n;
    }
  }

  /** Reading digit by digit stays within `int` exactly if the whole number does. */
  lemma PrefixesFitIff(n: seq<Byte>)
    requires forall c :: c in n ==> IsDigit(c)
    ensures (forall k: nat :: k <= |n| ==> Value(n[..k]) < INT_LIMIT) <==> Value(n) < INT_LIMIT
  {
    hide Value;
    assert n[..|n|] == n;
    forall k: nat | k <= |n|
      ensures Value(n[..k]) <= Value(n)
    {
      ValueGrows(n, k);
    }
  }

  /** What is left of a number in 32 bits with a sign, if an overflow wraps around. */
  function Wrapped(x: int): (r: int)
    ensures -INT_LIMIT <= r < INT_LIMIT
    ensures -INT_LIMIT <= x < INT_LIMIT ==> r == x
  {
    (x + INT_LIMIT) % (2 * INT_LIMIT) - INT_LIMIT
  }

  /** The digits accumulated that way. */
  function Accumulated(n: seq<Byte>): (v: int)
    requires forall c :: c in n ==> IsDigit(c)
    ensures -INT_LIMIT <= v < INT_LIMIT
  {
    if n == [] then 0
    else
      assert n[|n| - 1] in n;
      Wrapped(10 * Accumulated(n[..|n| - 1]) + DigitValue(n[|n| - 1]))
  }

  lemma AccumulatedSnoc(n: seq<Byte>, c: Byte)
    requires (forall d :: d in n ==> IsDigit(d)) && IsDigit(c)
    ensures Accumulated(n + [c]) == Wrapped(10 * Accumulated(n) + DigitValue(c))
  {
    assert (n + [c])[..|n|] == n;
  }

  /** It is the number exactly if the number fits. */
  lemma {:induction false} AccumulatedIff(n: seq<Byte>)
    requires forall c :: c in n ==> IsDigit(c)
    ensures Accumulated(n) == Value(n) <==> Value(n) < INT_LIMIT
  {
    hide Wrapped;
    if n != [] {
      AccumulatedIff(n[..|n| - 1]);
      ValueGrows(n, |n| - 1);
    }
  }
}
