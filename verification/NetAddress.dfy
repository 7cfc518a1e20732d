/** Network addresses as text (src/base/system.cpp): the IPv4 form and its parser, and the IPv6 form of section 4 of
    RFC 5952. */
module NetAddress {
  import opened CString
  import opened DecimalText

  const DOT: Byte := 46
  const COLON: Byte := 58
  const OPEN: Byte := 91
  const CLOSE: Byte := 93

  lemma Punctuation()
    ensures Ascii(".:[]") == [DOT, COLON, OPEN, CLOSE]
  {
  }

  // IPv4.

  datatype Ipv4 = Ipv4(a: Byte, b: Byte, c: Byte, d: Byte, port: int)

  /** A number at the start of a text and what follows; `parse_int` accumulates in an `int`, and what it does when that
      overflows is not defined. */
  datatype Taken = Number(value: int, rest: seq<Byte>) | NoNumber | Overflow

  /** What the parser makes of a text. */
  datatype Reading = Read(numbers: seq<int>) | Rejected | Undefined

  function TakeNumber(s: seq<Byte>, max: nat): Taken {
    var n := Digits(s);
    if n == [] then NoNumber
    else if Value(n) >= INT_LIMIT then Overflow
    else if Value(n) > max then NoNumber
    else Number(Value(n), s[|n|..])
  }

  /** The fifth number of an address is its port. */
  const PORT: nat := 4

  function Limit(k: nat): nat {
    if k == PORT then 0xFFFF else 255
  }

  /** What stands behind number `k`, if another one follows. */
  function Separator(k: nat): Byte {
    if k + 1 == PORT then COLON else DOT
  }

  /** The rest of an address from number `k` on. */
  function ReadFrom(s: seq<Byte>, k: nat): Reading
    requires k <= PORT
    decreases PORT - k
  {
    match TakeNumber(s, Limit(k))
    case NoNumber => Rejected
    case Overflow => Undefined
    case Number(value, rest) =>
      if k == PORT then if rest == [] then Read([value]) else Rejected
      else if k + 1 == PORT && rest == [] then Read([value, 0])
      else if rest != [] && rest[0] == Separator(k) then Before(value, ReadFrom(rest[1..], k + 1))
      else Rejected
  }

  function Before(value: int, r: Reading): Reading {
    if r.Read? then Read([value] + r.numbers) else r
  }

  /** What `net_addr_from_str` makes of a text that is not in brackets: four numbers and a port. */
  function FromStr(s: seq<Byte>): Reading {
    ReadFrom(s, 0)
  }

  // The same, from the text.

  predicate InRange(n: seq<Byte>, max: nat) {
    IsNumber(n) && Value(n) <= max
  }

  /** The numbers `k`, `k + 1` and so on of an address, as they are written. */
  predicate AreNumbers(ns: seq<seq<Byte>>, k: nat) {
    forall i :: 0 <= i < |ns| ==> InRange(ns[i], Limit(k + i))
  }

  /** All of them, with the port or without. */
  predicate AreRest(ns: seq<seq<Byte>>, k: nat) {
    ns != [] && (k + |ns| == PORT || k + |ns| == PORT + 1) && AreNumbers(ns, k)
  }

  /** Numbers with their separators between them, or with one behind each. */
  function Joined(ns: seq<seq<Byte>>, k: nat): seq<Byte>
    requires ns != []
  {
    if |ns| == 1 then ns[0] else ns[0] + ([Separator(k)] + Joined(ns[1..], k + 1))
  }

  function Lead(ns: seq<seq<Byte>>, k: nat): seq<Byte> {
    if ns == [] then [] else ns[0] + ([Separator(k)] + Lead(ns[1..], k + 1))
  }

  /** What the numbers mean; a port that is not written is 0. */
  function Meant(ns: seq<seq<Byte>>, k: nat): seq<int>
    requires AreRest(ns, k)
  {
    if |ns| == 1 then if k == PORT then [Value(ns[0])] else [Value(ns[0]), 0]
    else [Value(ns[0])] + Meant(ns[1..], k + 1)
  }

  /** Behind numbers that are all right stands one that does not fit an `int`. */
  predicate IsOverlong(s: seq<Byte>, k: nat, ns: seq<seq<Byte>>, n: seq<Byte>, rest: seq<Byte>) {
    && k + |ns| <= PORT && AreNumbers(ns, k)
    && IsNumber(n) && Value(n) >= INT_LIMIT && (rest != [] ==> !IsDigit(rest[0]))
    && s == Lead(ns, k) + (n + rest)
  }

  lemma TakeNumberIs(s: seq<Byte>, max: nat, n: seq<Byte>, rest: seq<Byte>)
    requires IsNumber(n) && s == n + rest && (rest != [] ==> !IsDigit(rest[0]))
    ensures TakeNumber(s, max) == if Value(n) >= INT_LIMIT then Overflow
                                  else if Value(n) > max then NoNumber else Number(Value(n), rest)
  {
    DigitsOf(n, rest);
    assert s[|n|..] == rest;
  }

  lemma {:induction false} ReadsJoined(ns: seq<seq<Byte>>, k: nat)
    requires k <= PORT && AreRest(ns, k)
    ensures ReadFrom(Joined(ns, k), k) == Read(Meant(ns, k))
    decreases |ns|
  {
    hide TakeNumber;
    assert InRange(ns[0], Limit(k));
    if |ns| == 1 {
      assert ns[0] + [] == ns[0];
      TakeNumberIs(ns[0], Limit(k), ns[0], []);
    } else {
      RestOf(ns, k);
      var rest := [Separator(k)] + Joined(ns[1..], k + 1);
      TakeNumberIs(Joined(ns, k), Limit(k), ns[0], rest);
      assert rest[1..] == Joined(ns[1..], k + 1);
      ReadsJoined(ns[1..], k + 1);
    }
  }

  lemma RestOf(ns: seq<seq<Byte>>, k: nat)
    requires ns != [] && AreNumbers(ns, k)
    ensures AreNumbers(ns[1..], k + 1)
  {
    forall i | 0 <= i < |ns| - 1
      ensures InRange(ns[1..][i], Limit(k + 1 + i))
    {
      assert ns[1..][i] == ns[i + 1];
    }
  }

  lemma InFront(n: seq<Byte>, ns: seq<seq<Byte>>, k: nat)
    requires InRange(n, Limit(k)) && AreNumbers(ns, k + 1)
    ensures AreNumbers([n] + ns, k) && ([n] + ns)[1..] == ns
  {
  }

  /** One step of the reader, seen from its result. */
  lemma ReadStep(s: seq<Byte>, k: nat)
    requires k <= PORT
    ensures var n := Digits(s);
            var rest := s[|n|..];
            && s == n + rest
            && match ReadFrom(s, k)
               case Rejected => true
               case Undefined =>
                 || (IsNumber(n) && Value(n) >= INT_LIMIT)
                 || (InRange(n, Limit(k)) && IsFollowed(rest, k) && ReadFrom(rest[1..], k + 1) == Undefined)
               case Read(numbers) =>
                 && InRange(n, Limit(k))
                 && if rest == [] then k + 1 >= PORT && numbers == if k == PORT then [Value(n)] else [Value(n), 0]
                    else IsFollowed(rest, k) && ReadFrom(rest[1..], k + 1).Read? &&
                         numbers == [Value(n)] + ReadFrom(rest[1..], k + 1).numbers
  {
    hide Value, Digits;
  }

  predicate IsFollowed(rest: seq<Byte>, k: nat) {
    k < PORT && rest != [] && rest == [Separator(k)] + rest[1..]
  }

  lemma {:induction false} ReadIsJoined(s: seq<Byte>, k: nat) returns (ns: seq<seq<Byte>>)
    requires k <= PORT && ReadFrom(s, k).Read?
    ensures AreRest(ns, k) && s == Joined(ns, k) && ReadFrom(s, k).numbers == Meant(ns, k)
    decreases PORT - k
  {
    hide Value, Digits, ReadFrom, InRange, AreNumbers, Joined, Meant;
    ReadStep(s, k);
    var n := Digits(s);
    var rest := s[|n|..];
    if rest == [] {
      ns := [n];
      OneNumber(n, k);
      assert n + [] == n;
    } else {
      var more := ReadIsJoined(rest[1..], k + 1);
      ns := [n] + more;
      OneInFront(n, more, k);
    }
  }

  lemma OneNumber(n: seq<Byte>, k: nat)
    requires InRange(n, Limit(k)) && PORT <= k + 1 <= PORT + 1
    ensures AreRest([n], k) && Joined([n], k) == n
    ensures Meant([n], k) == if k == PORT then [Value(n)] else [Value(n), 0]
  {
  }

  lemma OneInFront(n: seq<Byte>, ns: seq<seq<Byte>>, k: nat)
    requires InRange(n, Limit(k)) && AreRest(ns, k + 1)
    ensures AreRest([n] + ns, k) && Joined([n] + ns, k) == n + ([Separator(k)] + Joined(ns, k + 1))
    ensures Meant([n] + ns, k) == [Value(n)] + Meant(ns, k + 1)
  {
    InFront(n, ns, k);
  }

  lemma {:induction false} OverlongIsUndefined(s: seq<Byte>, k: nat, ns: seq<seq<Byte>>, n: seq<Byte>, rest: seq<Byte>)
    requires k <= PORT && IsOverlong(s, k, ns, n, rest)
    ensures ReadFrom(s, k) == Undefined
    decreases |ns|
  {
    hide TakeNumber;
    if ns == [] {
      assert s == n + rest;
      TakeNumberIs(s, Limit(k), n, rest);
    } else {
      assert InRange(ns[0], Limit(k));
      RestOf(ns, k);
      var next := Lead(ns[1..], k + 1) + (n + rest);
      assert s == ns[0] + ([Separator(k)] + next);
      TakeNumberIs(s, Limit(k), ns[0], [Separator(k)] + next);
      assert ([Separator(k)] + next)[1..] == next;
      OverlongIsUndefined(next, k + 1, ns[1..], n, rest);
    }
  }

  lemma {:induction false} UndefinedIsOverlong(s: seq<Byte>, k: nat)
      returns (ns: seq<seq<Byte>>, n: seq<Byte>, rest: seq<Byte>)
    requires k <= PORT && ReadFrom(s, k) == Undefined
    ensures IsOverlong(s, k, ns, n, rest)
    decreases PORT - k
  {
    hide Value, Digits, ReadFrom, InRange, AreNumbers, Lead;
    ReadStep(s, k);
    var first := Digits(s);
    var tail := s[|first|..];
    if IsNumber(first) && Value(first) >= INT_LIMIT {
      ns, n, rest := [], first, tail;
      NoNumbers(k);
      assert s == [] + (n + rest);
    } else {
      var more;
      more, n, rest := UndefinedIsOverlong(tail[1..], k + 1);
      OverlongBehind(first, tail[1..], k, more, n, rest);
      ns := [first] + more;
    }
  }

  lemma NoNumbers(k: nat)
    ensures AreNumbers([], k) && Lead([], k) == []
  {
  }

  lemma OverlongBehind(first: seq<Byte>, tail: seq<Byte>, k: nat, more: seq<seq<Byte>>, n: seq<Byte>, rest: seq<Byte>)
    requires InRange(first, Limit(k)) && IsOverlong(tail, k + 1, more, n, rest)
    ensures IsOverlong(first + ([Separator(k)] + tail), k, [first] + more, n, rest)
  {
    hide InRange;
    InFront(first, more, k);
    var lead := Lead(more, k + 1);
    assert first + ([Separator(k)] + (lead + (n + rest))) == first + ([Separator(k)] + lead) + (n + rest);
  }

  /** The parser reads a text exactly if it is four numbers below 256 with dots between them, and a port below 65536
      behind a colon or none, and it reads what is meant. Its behaviour is undefined exactly if behind numbers that are
      all right comes one of 2^31 or more. Every other text is rejected. */
  lemma FromStrIff(s: seq<Byte>, numbers: seq<int>)
    ensures FromStr(s) == Read(numbers) <==>
              exists ns :: AreRest(ns, 0) && s == Joined(ns, 0) && numbers == Meant(ns, 0)
    ensures FromStr(s) == Undefined <==> exists ns, n, rest :: IsOverlong(s, 0, ns, n, rest)
  {
    hide ReadFrom, Joined, Meant, AreNumbers, IsOverlong;
    if FromStr(s).Read? {
      var ns := ReadIsJoined(s, 0);
    }
    if FromStr(s) == Undefined {
      var ns, n, rest := UndefinedIsOverlong(s, 0);
    }
    forall ns | ns != [] && AreRest(ns, 0) && s == Joined(ns, 0)
      ensures FromStr(s) == Read(Meant(ns, 0))
    {
      ReadsJoined(ns, 0);
    }
    forall ns, n, rest | IsOverlong(s, 0, ns, n, rest)
      ensures FromStr(s) == Undefined
    {
      OverlongIsUndefined(s, 0, ns, n, rest);
    }
  }

  /** "4294967297" */
  const OVERLONG: seq<Byte> := [52, 50, 57, 52, 57, 54, 55, 50, 57, 55]

  /** The text "4294967297.2.3.4" is no address. With an overflow that wraps around, its first number is 1 and the text
      passes for the address 1.2.3.4. */
  lemma OverlongAddress()
    ensures IsNumber(OVERLONG) && Value(OVERLONG) > INT_LIMIT && Accumulated(OVERLONG) == 1
    ensures FromStr(OVERLONG + [DOT, 50, DOT, 51, DOT, 52]) == Undefined
  {
    ValueOfOverlong();
    var rest := [DOT, 50, DOT, 51, DOT, 52];
    assert OVERLONG + rest == [] + (OVERLONG + rest);
    OverlongIsUndefined(OVERLONG + rest, 0, [], OVERLONG, rest);
  }

  lemma ValueOfOverlong()
    ensures IsNumber(OVERLONG) && Value(OVERLONG) == 4294967297 && Accumulated(OVERLONG) == 1
  {
    var front := OVERLONG[..9];
    assert OVERLONG == front + [55];
    ValueOfFront();
    AccumulatedIff(front);
    ValueSnoc(front, 55);
    AccumulatedSnoc(front, 55);
    hide Value, Accumulated;
  }

  lemma ValueOfFront()
    ensures Value(OVERLONG[..9]) == 429496729
  {
    hide Value;
    NoValue();
    assert OVERLONG[..0] == [];
    NextDigit(0);
    NextDigit(1);
    NextDigit(2);
    NextDigit(3);
    NextDigit(4);
    NextDigit(5);
    NextDigit(6);
    NextDigit(7);
    NextDigit(8);
  }

  lemma NextDigit(i: nat)
    requires i < 10
    ensures Value(OVERLONG[..i + 1]) == 10 * Value(OVERLONG[..i]) + DigitValue(OVERLONG[i])
  {
    hide Value;
    assert OVERLONG[..i + 1] == OVERLONG[..i] + [OVERLONG[i]];
    ValueSnoc(OVERLONG[..i], OVERLONG[i]);
  }

  /** `net_addr_str` */
  function ToStr(addr: Ipv4, addPort: bool): seq<Byte>
    requires 0 <= addr.port <= 0xFFFF
  {
    var d := if addPort then Decimal(addr.d) + ([COLON] + Decimal(addr.port)) else Decimal(addr.d);
    Decimal(addr.a) + ([DOT] + (Decimal(addr.b) + ([DOT] + (Decimal(addr.c) + ([DOT] + d)))))
  }

  function Numbers(addr: Ipv4): seq<int> {
    [addr.a, addr.b, addr.c, addr.d, addr.port]
  }

  /** What is printed is parsed back; without the port it comes back as 0. */
  lemma ParsesBack(addr: Ipv4, addPort: bool)
    requires 0 <= addr.port <= 0xFFFF
    ensures FromStr(ToStr(addr, addPort)) == Read(Numbers(if addPort then addr else addr.(port := 0)))
  {
    hide ReadFrom, Decimal, Value, Joined, Meant, AreRest, Separator;
    Separators();
    var port := if addPort then addr.port else 0;
    var ns := LastNumbers(addr.d, addr.port, addPort);
    var ms := Meant(ns, 3);
    ns := NumberInFront(addr.c, ns, 2);
    ns := NumberInFront(addr.b, ns, 1);
    ns := NumberInFront(addr.a, ns, 0);
    ReadsJoined(ns, 0);
    assert Meant(ns, 0) == [addr.a] + ([addr.b] + ([addr.c] + ms));
    assert [addr.a] + ([addr.b] + ([addr.c] + [addr.d, port])) == [addr.a, addr.b, addr.c, addr.d, port];
  }

  lemma Separators()
    ensures Separator(0) == Separator(1) == Separator(2) == DOT && Separator(3) == COLON
  {
  }

  lemma NumberInFront(v: Byte, ns: seq<seq<Byte>>, k: nat) returns (r: seq<seq<Byte>>)
    requires k < 3 && AreRest(ns, k + 1)
    ensures AreRest(r, k) && Joined(r, k) == Decimal(v) + ([Separator(k)] + Joined(ns, k + 1))
    ensures Meant(r, k) == [v] + Meant(ns, k + 1)
  {
    hide Value, Decimal, AreRest, Joined, Meant;
    r := [Decimal(v)] + ns;
    OneInFront(Decimal(v), ns, k);
  }

  lemma LastNumbers(v: Byte, port: int, addPort: bool) returns (r: seq<seq<Byte>>)
    requires 0 <= port <= 0xFFFF
    ensures AreRest(r, 3)
    ensures Joined(r, 3) == if addPort then Decimal(v) + ([COLON] + Decimal(port)) else Decimal(v)
    ensures Meant(r, 3) == [v, if addPort then port else 0]
  {
    hide Value, Decimal, AreRest, Joined, Meant;
    if addPort {
      OneNumber(Decimal(port), PORT);
      r := [Decimal(v)] + [Decimal(port)];
      OneInFront(Decimal(v), [Decimal(port)], 3);
    } else {
      r := [Decimal(v)];
      OneNumber(Decimal(v), 3);
    }
  }

  // The parser's loops.

  /** `parse_int` in its `int`, from position `pos` of a text with its NUL behind it: all digits there and their value,
      unless that does not fit. */
  method ParseInt(s: seq<Byte>, pos: nat) returns (out: Taken, next: nat)
    requires pos <= |s|
    ensures var n := Digits(s[pos..]);
            out == if n == [] then NoNumber
                   else if Value(n) >= INT_LIMIT then Overflow else Number(Value(n), s[pos..][|n|..])
    ensures pos <= next <= |s| && (out.Number? ==> out.rest == s[next..])
  {
    hide Value, Digits;
    next := pos;
    ghost var n := Digits(s[pos..]);
    if !IsDigit(At(s, next)) {
      DigitsOf([], s[pos..]);
      assert [] + s[pos..] == s[pos..];
      return NoNumber, next;
    }
    var i := DigitValue(At(s, next));
    ValueSnoc([], At(s, next));
    NoValue();
    next := next + 1;
    assert s[pos..next] == [] + [At(s, pos)];
    while true
      invariant pos < next <= |s| && IsNumber(s[pos..next]) && i == Value(s[pos..next]) && 0 <= i < INT_LIMIT
      decreases |s| - next
    {
      if !IsDigit(At(s, next)) {
        DigitsOf(s[pos..next], s[next..]);
        assert s[pos..next] + s[next..] == s[pos..];
        assert s[pos..][next - pos..] == s[next..];
        return Number(i, s[next..]), next;
      }
      ValueSnoc(s[pos..next], At(s, next));
      assert s[pos..next] + [s[next]] == s[pos..next + 1];
      if i * 10 + DigitValue(At(s, next)) >= INT_LIMIT {
        assert s[pos..][..next + 1 - pos] == s[pos..next + 1];
        StartsNumber(s[pos..], next + 1 - pos);
        return Overflow, next;
      }
      i := i * 10 + DigitValue(At(s, next));
      next := next + 1;
    }
  }

  lemma StartsNumber(s: seq<Byte>, k: nat)
    requires k <= |s| && forall c :: c in s[..k] ==> IsDigit(c)
    ensures k <= |Digits(s)| && Value(s[..k]) <= Value(Digits(s))
  {
    hide Value;
    var n := Digits(s);
    forall j | 0 <= j < k
      ensures IsDigit(s[j])
    {
      assert s[..k][j] in s[..k];
    }
    assert n[..k] == s[..k];
    ValueGrows(n, k);
  }

  /** `parse_uint8` and `parse_uint16` */
  method ParseUint(s: seq<Byte>, pos: nat, max: nat) returns (out: Taken, next: nat)
    requires pos <= |s|
    ensures out == TakeNumber(s[pos..], max)
    ensures pos <= next <= |s| && (out.Number? ==> out.rest == s[next..] && 0 <= out.value <= max)
  {
    hide Value, Digits;
    out, next := ParseInt(s, pos);
    if out.Number? && (out.value < 0 || out.value > max) {
      out := NoNumber;
    }
  }

  /** The numbers read so far, and what becomes of the rest. */
  function Behind(ns: seq<int>, r: Reading): Reading {
    if r.Read? then Read(ns + r.numbers) else r
  }

  lemma NextField(s: seq<Byte>, pos: nat, k: nat, ns: seq<int>, value: int, next: nat)
    requires k < PORT && pos <= |s| && next < |s| && s[next] == Separator(k)
    requires TakeNumber(s[pos..], Limit(k)) == Number(value, s[next..])
    ensures Behind(ns, ReadFrom(s[pos..], k)) == Behind(ns + [value], ReadFrom(s[next + 1..], k + 1))
  {
    hide TakeNumber;
    assert s[next..][1..] == s[next + 1..];
    var r := ReadFrom(s[next + 1..], k + 1);
    if r.Read? {
      assert ns + ([value] + r.numbers) == ns + [value] + r.numbers;
    }
  }

  /** `parse_uint8` and `parse_char('.')` */
  method ParseField(s: seq<Byte>, pos: nat, k: nat, ghost ns: seq<int>) returns (out: Taken, next: nat)
    requires pos <= |s| && k + 1 < PORT
    ensures out.Number? ==> next <= |s|
    ensures Behind(ns, ReadFrom(s[pos..], k)) ==
            match out
            case Number(value, _) => Behind(ns + [value], ReadFrom(s[next..], k + 1))
            case NoNumber => Rejected
            case Overflow => Undefined
  {
    hide TakeNumber;
    out, next := ParseUint(s, pos, 255);
    if out.Number? {
      if At(s, next) != DOT {
        return NoNumber, next;
      }
      NextField(s, pos, k, ns, out.value, next);
      next := next + 1;
    }
  }

  /** The last number, and the port. */
  method ParseEnd(s: seq<Byte>, pos: nat, ns: seq<int>) returns (r: Reading)
    requires IsText(s) && pos <= |s|
    ensures r == Behind(ns, ReadFrom(s[pos..], PORT - 1))
  {
    hide TakeNumber;
    var d, next := ParseUint(s, pos, 255);
    if !d.Number? {
      return if d.Overflow? then Undefined else Rejected;
    }
    var port := 0;
    if At(s, next) == COLON {
      NextField(s, pos, PORT - 1, ns, d.value, next);
      var e;
      e, next := ParseUint(s, next + 1, 0xFFFF);
      if !e.Number? {
        return if e.Overflow? then Undefined else Rejected;
      }
      port := e.value;
      assert ns + [d.value] + [port] == ns + [d.value, port];
    }
    if At(s, next) != 0 {
      return Rejected;
    }
    return Read(ns + [d.value, port]);
  }

  /** `net_addr_from_str`, the branch of texts that are not in brackets */
  method NetAddrFromStr(s: seq<Byte>) returns (r: Reading)
    requires IsText(s) && At(s, 0) != OPEN
    ensures r == FromStr(s)
  {
    StartReading(s);
    hide ReadFrom, Behind;
    var a, pos := ParseField(s, 0, 0, []);
    if !a.Number? {
      return if a.Overflow? then Undefined else Rejected;
    }
    var b;
    b, pos := ParseField(s, pos, 1, [] + [a.value]);
    if !b.Number? {
      return if b.Overflow? then Undefined else Rejected;
    }
    var c;
    c, pos := ParseField(s, pos, 2, [] + [a.value] + [b.value]);
    if !c.Number? {
      return if c.Overflow? then Undefined else Rejected;
    }
    r := ParseEnd(s, pos, [] + [a.value] + [b.value] + [c.value]);
  }

  lemma StartReading(s: seq<Byte>)
    ensures FromStr(s) == Behind([], ReadFrom(s[0..], 0))
  {
    hide ReadFrom;
    assert s[0..] == s;
    var r := ReadFrom(s, 0);
    if r.Read? {
      assert [] + r.numbers == r.numbers;
    }
  }

  // IPv6.

  type Group = x: int | 0 <= x < 0x1_0000

  predicate IsZeroRun(ip: seq<Group>, start: int, len: nat) {
    0 <= start && start + len <= |ip| && forall k :: start <= k < start + len ==> ip[k] == 0
  }

  /** What section 4.2 of RFC 5952 wants shortened: the longest run of zeros, the first of several, but no single
      zero. */
  ghost predicate IsRunToShorten(ip: seq<Group>, start: int, len: nat) {
    if len == 0 then forall s, l: nat :: IsZeroRun(ip, s, l) ==> l <= 1
    else
      && 2 <= len && IsZeroRun(ip, start, len)
      && forall s, l: nat :: IsZeroRun(ip, s, l) && l > 0 ==> l < len || (l == len && start <= s)
  }

  /** The runs that end before `end` are not better than this one. */
  ghost predicate IsBestBefore(ip: seq<Group>, end: int, start: int, len: nat) {
    && (len > 0 ==> IsZeroRun(ip, start, len) && start + len <= end)
    && forall s, l: nat :: IsZeroRun(ip, s, l) && l > 0 && s + l <= end ==> l < len || (l == len && start <= s)
  }

  /** Runs do not go over a group that is not zero. */
  lemma RunStopsAt(ip: seq<Group>, s: int, l: nat, k: int)
    requires IsZeroRun(ip, s, l) && 0 <= k < |ip| && ip[k] != 0
    ensures s + l <= k || k < s
  {
  }

  /** A run that has come to its end is the best so far if it is longer than the best before it. */
  lemma RunEnds(ip: seq<Group>, seqStart: int, i: nat, start: int, len: nat)
    requires 0 <= seqStart < i <= |ip| && IsZeroRun(ip, seqStart, i - seqStart)
    requires IsBestBefore(ip, seqStart, start, len)
    requires seqStart > 0 ==> ip[seqStart - 1] != 0
    requires i < |ip| ==> ip[i] != 0
    ensures if len < i - seqStart then IsBestBefore(ip, i + 1, seqStart, i - seqStart)
            else IsBestBefore(ip, i + 1, start, len)
  {
    forall s, l: nat | IsZeroRun(ip, s, l) && l > 0 && s + l <= i + 1
      ensures s + l <= seqStart || (seqStart <= s && l <= i - seqStart && (l == i - seqStart ==> s == seqStart))
    {
      if i < |ip| {
        RunStopsAt(ip, s, l, i);
      }
      if seqStart > 0 {
        RunStopsAt(ip, s, l, seqStart - 1);
      }
    }
  }

  lemma NoRunHere(ip: seq<Group>, i: nat, start: int, len: nat)
    requires i <= |ip| && IsBestBefore(ip, i, start, len)
    requires i < |ip| ==> ip[i] != 0
    ensures IsBestBefore(ip, i + 1, start, len)
  {
    forall s, l: nat | IsZeroRun(ip, s, l) && l > 0 && s + l <= i + 1
      ensures s + l <= i
    {
      if i < |ip| {
        RunStopsAt(ip, s, l, i);
      }
    }
  }

  /** The first half of `net_addr_str_v6` */
  method LongestZeroRun(ip: seq<Group>) returns (start: int, len: nat)
    requires |ip| == 8
    ensures IsRunToShorten(ip, start, len) && (len == 0 ==> start == -1)
  {
    hide IsBestBefore;
    start, len := -1, 0;
    NothingBefore(ip);
    var seqStart, seqLen: nat := -1, 0;
    for i := 0 to 8 + 1
      invariant seqStart == -1 ==> IsBestBefore(ip, i, start, len)
      invariant seqStart == -1 && 0 < i <= 8 ==> ip[i - 1] != 0
      invariant seqStart != -1 ==> 0 <= seqStart < i <= 8 && seqLen == i - seqStart && IsZeroRun(ip, seqStart, seqLen)
      invariant seqStart != -1 ==> IsBestBefore(ip, seqStart, start, len)
      invariant seqStart > 0 ==> ip[seqStart - 1] != 0
      invariant len == 0 ==> start == -1
    {
      if seqStart != -1 {
        if i == 8 || ip[i] != 0 {
          RunEnds(ip, seqStart, i, start, len);
          if len < seqLen {
            len := seqLen;
            start := seqStart;
          }
          seqLen := 0;
          seqStart := -1;
        } else {
          seqLen := seqLen + 1;
        }
      } else {
        if i != 8 && ip[i] == 0 {
          seqStart := i;
          seqLen := 1;
        } else {
          NoRunHere(ip, i, start, len);
        }
      }
    }
    BestIsToShorten(ip, start, len);
    if len <= 1 {
      len := 0;
      start := -1;
    }
  }

  lemma NothingBefore(ip: seq<Group>)
    ensures IsBestBefore(ip, 0, -1, 0)
  {
  }

  lemma BestIsToShorten(ip: seq<Group>, start: int, len: nat)
    requires IsBestBefore(ip, |ip| + 1, start, len)
    ensures if len <= 1 then IsRunToShorten(ip, -1, 0) else IsRunToShorten(ip, start, len)
  {
    forall s, l: nat | IsZeroRun(ip, s, l)
      ensures s + l <= |ip| + 1
    {
    }
  }

  function HexDigit(d: int): Byte
    requires 0 <= d < 16
  {
    if d < 10 then 48 + d else 87 + d
  }

  lemma HexDigitIsCharacter(d: nat)
    requires d < 16
    ensures HexDigit(d) == Ascii("0123456789abcdef")[d]
  {
  }

  /** `%x`: lower case, no leading zeros */
  function Hex(n: Group): (s: seq<Byte>)
    ensures 1 <= |s| <= 4 && COLON !in s
    ensures |s| > 1 ==> s[0] != 48
  {
    if n < 0x10 then [HexDigit(n)]
    else if n < 0x100 then [HexDigit(n / 0x10), HexDigit(n % 0x10)]
    else if n < 0x1000 then [HexDigit(n / 0x100), HexDigit(n / 0x10 % 0x10), HexDigit(n % 0x10)]
    else [HexDigit(n / 0x1000), HexDigit(n / 0x100 % 0x10), HexDigit(n / 0x10 % 0x10), HexDigit(n % 0x10)]
  }

  function Hexes(gs: seq<Group>): (fs: seq<seq<Byte>>)
    ensures |fs| == |gs|
  {
    seq(|gs|, i requires 0 <= i < |gs| => Hex(gs[i]))
  }

  /** Fields with colons between them. */
  function Colons(fs: seq<seq<Byte>>): seq<Byte> {
    if fs == [] then []
    else if |fs| == 1 then fs[0]
    else Colons(fs[..|fs| - 1]) + [COLON] + fs[|fs| - 1]
  }

  lemma ColonsSnoc(fs: seq<seq<Byte>>, f: seq<Byte>)
    ensures Colons(fs + [f]) == if fs == [] then f else Colons(fs) + [COLON] + f
  {
    assert (fs + [f])[..|fs|] == fs;
  }

  /** The fields of an address up to group `i`: the run from `start` is left out, and an empty field stands for it, with
      one more at either end of the address. */
  function Fields(ip: seq<Group>, start: int, len: nat, i: nat): seq<seq<Byte>>
    requires i <= |ip| && (len > 0 ==> 0 <= start && start + len <= |ip|)
  {
    if len == 0 || i <= start then Hexes(ip[..i])
    else
      UpToRun(ip, start) + if i <= start + len then [[]] else Hexes(ip[start + len..i])
  }

  lemma HexesSnoc(ip: seq<Group>, a: nat, i: nat)
    requires a <= i < |ip|
    ensures Hexes(ip[a..i + 1]) == Hexes(ip[a..i]) + [Hex(ip[i])]
  {
    hide Hex;
  }

  lemma NextBeforeRun(ip: seq<Group>, start: int, len: nat, i: nat)
    requires i < |ip| && (len > 0 ==> i < start && start + len <= |ip|)
    ensures Colons(Fields(ip, start, len, i + 1)) ==
            if i == 0 then Hex(ip[i]) else Colons(Fields(ip, start, len, i)) + [COLON] + Hex(ip[i])
  {
    hide Hex, Hexes, Colons;
    HexesSnoc(ip, 0, i);
    NoHexes(ip, i);
    assert ip[0..i] == ip[..i] && ip[0..i + 1] == ip[..i + 1];
    ColonsSnoc(Hexes(ip[..i]), Hex(ip[i]));
  }

  /** The fields up to a run, and the one that stands for it. */
  function UpToRun(ip: seq<Group>, start: nat): seq<seq<Byte>>
    requires start <= |ip|
  {
    (if start == 0 then [[]] else Hexes(ip[..start])) + [[]]
  }

  lemma RunBegins(ip: seq<Group>, start: nat)
    requires start <= |ip|
    ensures Colons(UpToRun(ip, start) + [[]]) == Colons(Hexes(ip[..start])) + [COLON, COLON]
  {
    hide Hex, Hexes;
    NoHexes(ip, start);
    var left := if start == 0 then [[]] else Hexes(ip[..start]);
    ColonsSnoc(left, []);
    ColonsSnoc(left + [[]], []);
    assert Colons([[]]) == [];
  }

  lemma NextAfterRun(ip: seq<Group>, start: nat, end: nat, i: nat)
    requires start < end <= i < |ip|
    ensures var fields := UpToRun(ip, start);
            Colons(fields + Hexes(ip[end..i + 1])) ==
            if i == end then Colons(fields + [[]]) + Hex(ip[i])
            else Colons(fields + Hexes(ip[end..i])) + [COLON] + Hex(ip[i])
  {
    hide Hex, Hexes, Colons;
    var fields := UpToRun(ip, start);
    HexesSnoc(ip, end, i);
    var right := Hexes(ip[end..i]);
    assert fields + (right + [Hex(ip[i])]) == fields + right + [Hex(ip[i])];
    ColonsSnoc(fields + right, Hex(ip[i]));
    if i == end {
      assert ip[end..i] == [];
      NoHexes([], 0);
      ColonsSnoc(fields, []);
      assert fields + right == fields;
    }
  }

  lemma NextGroup(ip: seq<Group>, start: int, len: nat, i: nat)
    requires i < |ip| && (len > 0 ==> 0 <= start && start + len <= |ip|) && (len == 0 ==> start == -1)
    ensures var before := Colons(Fields(ip, start, len, i));
            Colons(Fields(ip, start, len, i + 1)) ==
            if start <= i < start + len then
              if i == start then before + [COLON, COLON] else before
            else if i == 0 || i == start + len then before + Hex(ip[i])
            else before + [COLON] + Hex(ip[i])
  {
    hide Hex, Hexes, Colons;
    NoFields(ip, start, len);
    if len == 0 || i < start {
      NextBeforeRun(ip, start, len, i);
    } else if i == start {
      RunBegins(ip, start);
    } else if i >= start + len {
      NextAfterRun(ip, start, start + len, i);
    }
  }

  lemma NoHexes(ip: seq<Group>, i: nat)
    requires i <= |ip|
    ensures Hexes(ip[..i]) == [] <==> i == 0
  {
  }

  /** A port, or none for a negative one. */
  function PortOf(port: int): seq<Byte> {
    if port >= 0 then [COLON] + Decimal(port) else []
  }

  /** Hex groups between colons in brackets, with a double colon for the run, and the port. */
  function V6Text(ip: seq<Group>, start: int, len: nat, port: int): seq<Byte>
    requires len > 0 ==> 0 <= start && start + len <= |ip|
  {
    [OPEN] + Colons(Fields(ip, start, len, |ip|)) + [CLOSE] + PortOf(port)
  }

  lemma NextText(ip: seq<Group>, start: int, len: nat, i: nat, text: seq<Byte>)
    requires i < |ip| && (len > 0 ==> 0 <= start && start + len <= |ip|) && (len == 0 ==> start == -1)
    requires text == [OPEN] + Colons(Fields(ip, start, len, i))
    ensures [OPEN] + Colons(Fields(ip, start, len, i + 1)) ==
            if start <= i < start + len then
              if i == start then text + [COLON, COLON] else text
            else text + ((if i == 0 || i == start + len then [] else [COLON]) + Hex(ip[i]))
  {
    hide Hex, Fields, Colons;
    NextGroup(ip, start, len, i);
    var before := Colons(Fields(ip, start, len, i));
    assert [OPEN] + before + ([] + Hex(ip[i])) == [OPEN] + (before + Hex(ip[i]));
    assert [OPEN] + before + ([COLON] + Hex(ip[i])) == [OPEN] + (before + [COLON] + Hex(ip[i]));
  }

  /** `net_addr_str_v6`: the text with the run that is to be shortened. */
  method NetAddrStrV6(ip: seq<Group>, port: int) returns (text: seq<Byte>)
    requires |ip| == 8
    ensures exists start: int, len: nat :: IsRunToShorten(ip, start, len) && text == V6Text(ip, start, len, port)
  {
    hide IsRunToShorten, Fields, Hex, Decimal, Colons;
    var start, len := LongestZeroRun(ip);
    RunIsInside(ip, start, len);
    text := [OPEN];
    NoFields(ip, start, len);
    for i := 0 to 8
      invariant text == [OPEN] + Colons(Fields(ip, start, len, i))
    {
      NextText(ip, start, len, i, text);
      if start <= i && i < start + len {
        if i == start {
          text := text + [COLON, COLON];
        }
      } else {
        text := text + ((if i == 0 || i == start + len then [] else [COLON]) + Hex(ip[i]));
      }
    }
    text := text + [CLOSE];
    if port >= 0 {
      text := text + ([COLON] + Decimal(port));
    }
    assert text == V6Text(ip, start, len, port);
  }

  /** There is only one such run. */
  lemma RunIsUnique(ip: seq<Group>, s: int, l: nat, s': int, l': nat)
    requires IsRunToShorten(ip, s, l) && IsRunToShorten(ip, s', l')
    ensures l == l' && (l > 0 ==> s == s')
  {
    assert l > 0 ==> IsZeroRun(ip, s, l);
    assert l' > 0 ==> IsZeroRun(ip, s', l');
  }

  lemma RunIsInside(ip: seq<Group>, start: int, len: nat)
    requires IsRunToShorten(ip, start, len)
    ensures len > 0 ==> 0 <= start && start + len <= |ip|
  {
  }

  lemma NoFields(ip: seq<Group>, start: int, len: nat)
    requires len > 0 ==> 0 <= start && start + len <= |ip|
    ensures Colons(Fields(ip, start, len, 0)) == []
  {
  }

  // Reading it back, by section 2.2 of RFC 4291: what a text in this form means.

  function HexDigitValue(c: Byte): int {
    if IsDigit(c) then c - 48 else c - 87
  }

  function HexValue(f: seq<Byte>): int {
    if f == [] then 0 else 0x10 * HexValue(f[..|f| - 1]) + HexDigitValue(f[|f| - 1])
  }

  /** The fields between the colons of a text. */
  function Split(s: seq<Byte>): (fs: seq<seq<Byte>>)
    ensures fs != []
  {
    if s == [] then [[]]
    else
      var fs, c := Split(s[..|s| - 1]), s[|s| - 1];
      if c == COLON then fs + [[]] else fs[..|fs| - 1] + [fs[|fs| - 1] + [c]]
  }

  /** The fields in front of the first empty one. */
  function LeftOf(fs: seq<seq<Byte>>): seq<seq<Byte>> {
    if fs == [] || fs[0] == [] then [] else [fs[0]] + LeftOf(fs[1..])
  }

  /** The fields behind the last empty one. */
  function RightOf(fs: seq<seq<Byte>>): seq<seq<Byte>> {
    if fs == [] || fs[|fs| - 1] == [] then [] else RightOf(fs[..|fs| - 1]) + [fs[|fs| - 1]]
  }

  function Values(fs: seq<seq<Byte>>): seq<int> {
    seq(|fs|, i requires 0 <= i < |fs| => HexValue(fs[i]))
  }

  function Zeros(n: int): seq<int> {
    seq(if n < 0 then 0 else n, i => 0)
  }

  /** Eight groups, or fewer and as many zeros as are missing where the double colon stands. */
  function ReadV6(s: seq<Byte>): seq<int> {
    var fs := Split(s);
    var left := LeftOf(fs);
    if left == fs then Values(fs)
    else Values(left) + Zeros(8 - |left| - |RightOf(fs)|) + Values(RightOf(fs))
  }

  lemma HexSnoc(n: Group)
    requires n >= 0x10
    ensures Hex(n) == Hex(n / 0x10) + [HexDigit(n % 0x10)]
  {
    hide HexDigit;
    assert n / 0x10 / 0x10 == n / 0x100 && n / 0x10 / 0x100 == n / 0x1000;
  }

  lemma HexValueSnoc(f: seq<Byte>, c: Byte)
    ensures HexValue(f + [c]) == 0x10 * HexValue(f) + HexDigitValue(c)
  {
    assert (f + [c])[..|f|] == f;
  }

  lemma HexDigitMeans(d: nat)
    requires d < 0x10
    ensures HexDigitValue(HexDigit(d)) == d
    ensures HexValue([HexDigit(d)]) == d
  {
    assert [] + [HexDigit(d)] == [HexDigit(d)];
    HexValueSnoc([], HexDigit(d));
  }

  lemma {:induction false} HexValueOfHex(n: Group)
    ensures HexValue(Hex(n)) == n
  {
    hide HexValue, HexDigit, HexDigitValue;
    HexDigitMeans(n % 0x10);
    if n >= 0x10 {
      HexSnoc(n);
      hide Hex;
      HexValueSnoc(Hex(n / 0x10), HexDigit(n % 0x10));
      HexValueOfHex(n / 0x10);
    }
  }

  lemma {:induction false} SplitField(s: seq<Byte>, f: seq<Byte>)
    requires COLON !in f
    ensures Split(s + [COLON] + f) == Split(s) + [f]
  {
    var t := s + [COLON] + f;
    if f == [] {
      assert t[..|t| - 1] == s;
    } else {
      SplitField(s, f[..|f| - 1]);
      assert f[|f| - 1] in f && f[..|f| - 1] + [f[|f| - 1]] == f;
      assert t[..|t| - 1] == s + [COLON] + f[..|f| - 1];
    }
  }

  lemma {:induction false} SplitOne(f: seq<Byte>)
    requires COLON !in f
    ensures Split(f) == [f]
  {
    if f != [] {
      SplitOne(f[..|f| - 1]);
      assert f[|f| - 1] in f && f[..|f| - 1] + [f[|f| - 1]] == f;
    }
  }

  lemma {:induction false} SplitColons(fs: seq<seq<Byte>>)
    requires fs != [] && forall f :: f in fs ==> COLON !in f
    ensures Split(Colons(fs)) == fs
  {
    hide Split, Colons;
    var front, f := fs[..|fs| - 1], fs[|fs| - 1];
    assert fs == front + [f];
    ColonsSnoc(front, f);
    if front == [] {
      SplitOne(f);
    } else {
      SplitColons(front);
      SplitField(Colons(front), f);
    }
  }

  lemma {:induction false} LeftOfIs(a: seq<seq<Byte>>, b: seq<seq<Byte>>)
    requires [] !in a && (b == [] || b[0] == [])
    ensures LeftOf(a + b) == a
  {
    if a == [] {
      assert a + b == b;
    } else {
      LeftOfIs(a[1..], b);
      assert (a + b)[1..] == a[1..] + b;
    }
  }

  lemma {:induction false} RightOfIs(a: seq<seq<Byte>>, b: seq<seq<Byte>>)
    requires [] !in b && (a == [] || a[|a| - 1] == [])
    ensures RightOf(a + b) == b
  {
    if b == [] {
      assert a + b == a;
    } else {
      RightOfIs(a, b[..|b| - 1]);
      assert (a + b)[..|a + b| - 1] == a + b[..|b| - 1];
    }
  }

  lemma ValuesOfHexes(gs: seq<Group>)
    ensures Values(Hexes(gs)) == gs
    ensures forall f :: f in Hexes(gs) ==> COLON !in f && f != []
  {
    hide Hex, HexValue;
    forall i | 0 <= i < |gs|
      ensures HexValue(Hex(gs[i])) == gs[i]
    {
      HexValueOfHex(gs[i]);
    }
  }

  /** The printed groups mean the address that was printed. */
  lemma ReadsBack(ip: seq<Group>, start: int, len: nat)
    requires |ip| == 8 && IsRunToShorten(ip, start, len)
    requires len > 0 ==> 0 <= start && start + len <= 8
    ensures ReadV6(Colons(Fields(ip, start, len, 8))) == ip
  {
    hide Split, LeftOf, RightOf, Colons, Values, Hexes;
    var fs := Fields(ip, start, len, 8);
    if len == 0 {
      assert ip[..8] == ip;
      ValuesOfHexes(ip);
      SplitColons(fs);
      LeftOfIs(fs, []);
      assert fs + [] == fs;
    } else {
      var left, right := ip[..start], ip[start + len..8];
      ValuesOfHexes(left);
      ValuesOfHexes(right);
      NoHexes(ip, start);
      NoHexes(right, |right|);
      assert right[..|right|] == right;
      var middle: seq<seq<Byte>> := (if start == 0 then [[]] else []) + [[]] + (if start + len == 8 then [[]] else []);
      assert fs == Hexes(left) + middle + Hexes(right);
      assert forall f :: f in fs ==> COLON !in f;
      SplitColons(fs);
      LeftOfIs(Hexes(left), middle + Hexes(right));
      assert fs == Hexes(left) + (middle + Hexes(right));
      RightOfIs(Hexes(left) + middle, Hexes(right));
      assert left + Zeros(len) + right == ip;
    }
  }

  lemma HexHasNoBracket(n: Group)
    ensures CLOSE !in Hex(n)
  {
    assert forall d: int :: 0 <= d < 16 ==> HexDigit(d) != CLOSE;
    hide HexDigit;
  }

  lemma {:induction false} ColonsHaveNoBracket(fs: seq<seq<Byte>>)
    requires forall f :: f in fs ==> CLOSE !in f
    ensures CLOSE !in Colons(fs)
  {
    if |fs| > 1 {
      ColonsHaveNoBracket(fs[..|fs| - 1]);
    }
  }

  lemma FieldsHaveNoBracket(ip: seq<Group>, start: int, len: nat)
    requires |ip| == 8 && (len > 0 ==> 0 <= start && start + len <= 8)
    ensures CLOSE !in Colons(Fields(ip, start, len, 8))
  {
    hide Hex, Colons;
    forall n: Group
      ensures CLOSE !in Hex(n)
    {
      HexHasNoBracket(n);
    }
    ColonsHaveNoBracket(Fields(ip, start, len, 8));
  }

  lemma BracketIsNotBefore(a: seq<Byte>, p: seq<Byte>, a': seq<Byte>, p': seq<Byte>)
    requires CLOSE !in a' && [OPEN] + a + [CLOSE] + p == [OPEN] + a' + [CLOSE] + p'
    ensures |a| >= |a'|
  {
    var s := [OPEN] + a + [CLOSE] + p;
    assert forall k :: 1 <= k <= |a'| ==> s[k] == a'[k - 1];
    assert s[|a| + 1] == CLOSE;
  }

  lemma BracketParts(a: seq<Byte>, p: seq<Byte>, a': seq<Byte>, p': seq<Byte>)
    requires CLOSE !in a && CLOSE !in a' && [OPEN] + a + [CLOSE] + p == [OPEN] + a' + [CLOSE] + p'
    ensures a == a' && p == p'
  {
    BracketIsNotBefore(a, p, a', p');
    BracketIsNotBefore(a', p', a, p);
    var s := [OPEN] + a + [CLOSE] + p;
    assert a == s[1..|a| + 1] == a';
    assert p == s[|a| + 2..] == p';
  }

  lemma PortsDiffer(port: int, port': int)
    ensures PortOf(port) == PortOf(port') <==> port == port' || (port < 0 && port' < 0)
  {
    hide Decimal, Value;
    if port >= 0 && port' >= 0 && PortOf(port) == PortOf(port') {
      assert Decimal(port) == PortOf(port)[1..] && Decimal(port') == PortOf(port')[1..];
    }
  }

  /** Two addresses look the same only if they are: groups and port can be told from the text. */
  lemma SameTextIff(ip: seq<Group>, start: int, len: nat, port: int,
                    ip': seq<Group>, start': int, len': nat, port': int)
    requires |ip| == |ip'| == 8 && IsRunToShorten(ip, start, len) && IsRunToShorten(ip', start', len')
    requires len > 0 ==> 0 <= start && start + len <= 8
    requires len' > 0 ==> 0 <= start' && start' + len' <= 8
    ensures V6Text(ip, start, len, port) == V6Text(ip', start', len', port') <==>
              ip == ip' && (port == port' || (port < 0 && port' < 0))
  {
    hide Fields, Colons, PortOf, ReadV6, IsRunToShorten;
    PortsDiffer(port, port');
    if V6Text(ip, start, len, port) == V6Text(ip', start', len', port') {
      FieldsHaveNoBracket(ip, start, len);
      FieldsHaveNoBracket(ip', start', len');
      BracketParts(Colons(Fields(ip, start, len, 8)), PortOf(port),
                   Colons(Fields(ip', start', len', 8)), PortOf(port'));
      ReadsBack(ip, start, len);
      ReadsBack(ip', start', len');
    }
    if ip == ip' {
      RunIsUnique(ip, start, len, start', len');
      SameFields(ip, start, len, start');
    }
  }

  lemma SameFields(ip: seq<Group>, start: int, len: nat, start': int)
    requires |ip| == 8 && (len > 0 ==> 0 <= start && start + len <= 8 && start == start')
    ensures Fields(ip, start, len, 8) == Fields(ip, start', len, 8)
  {
  }

  // The whole text, read back.

  /** What stands before the first `c`. */
  function UpTo(s: seq<Byte>, c: Byte): seq<Byte> {
    if s == [] || s[0] == c then [] else [s[0]] + UpTo(s[1..], c)
  }

  lemma {:induction false} UpToIs(a: seq<Byte>, c: Byte, p: seq<Byte>)
    requires c !in a
    ensures UpTo(a + [c] + p, c) == a
  {
    if a != [] {
      UpToIs(a[1..], c, p);
      assert (a + [c] + p)[1..] == a[1..] + [c] + p;
    }
  }

  /** An address in brackets, and the port behind them, if there is one. */
  datatype V6 = V6(groups: seq<int>, port: int)

  /** `[groups]` or `[groups]:port` */
  function ReadV6Text(s: seq<Byte>): V6
    requires s != []
  {
    var inside := UpTo(s[1..], CLOSE);
    var rest := if |inside| + 2 <= |s| then s[|inside| + 2..] else [];
    V6(ReadV6(inside), if rest != [] && rest[0] == COLON && IsNumber(rest[1..]) then Value(rest[1..]) else -1)
  }

  /** What is printed is the address and the port. */
  lemma TextReadsBack(ip: seq<Group>, start: int, len: nat, port: int)
    requires |ip| == 8 && IsRunToShorten(ip, start, len)
    requires len > 0 ==> 0 <= start && start + len <= 8
    ensures ReadV6Text(V6Text(ip, start, len, port)) == V6(ip, if port >= 0 then port else -1)
  {
    hide Fields, Colons, ReadV6, IsRunToShorten, Decimal, Value;
    var inside, s := Colons(Fields(ip, start, len, 8)), V6Text(ip, start, len, port);
    FieldsHaveNoBracket(ip, start, len);
    ReadsBack(ip, start, len);
    UpToIs(inside, CLOSE, PortOf(port));
    assert s[1..] == inside + [CLOSE] + PortOf(port);
    assert s[|inside| + 2..] == PortOf(port);
    assert port >= 0 ==> PortOf(port)[1..] == Decimal(port);
  }

  // The text fits.

  const NETADDR_MAXSTRSIZE: nat := 1 + (8 * 4 + 7) + 1 + 1 + 5 + 1

  lemma {:induction false} ColonsAreShort(fs: seq<seq<Byte>>)
    requires fs != [] && forall f :: f in fs ==> |f| <= 4
    ensures |Colons(fs)| + 1 <= 5 * |fs|
  {
    if |fs| > 1 {
      ColonsAreShort(fs[..|fs| - 1]);
    }
  }

  /** With its NUL the longest IPv6 text still fits a buffer of `NETADDR_MAXSTRSIZE`: printing never cuts it off. */
  lemma TextFits(ip: seq<Group>, start: int, len: nat, port: int)
    requires |ip| == 8 && port <= 0xFFFF && IsRunToShorten(ip, start, len)
    requires len > 0 ==> 0 <= start && start + len <= 8
    ensures |V6Text(ip, start, len, port)| < NETADDR_MAXSTRSIZE
  {
    hide IsRunToShorten, Colons, Decimal, Hex;
    var fs := Fields(ip, start, len, 8);
    ShortRun(ip, start, len);
    assert 0 < |fs| <= 8;
    assert forall f :: f in fs ==> |f| <= 4;
    ColonsAreShort(fs);
    if port >= 0 {
      ShortNumbers(port);
    }
  }

  lemma ShortRun(ip: seq<Group>, start: int, len: nat)
    requires IsRunToShorten(ip, start, len)
    ensures len != 1
  {
  }
}
