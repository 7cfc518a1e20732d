/** Levenshtein distance of src/base/system.cpp: two alternating rows in a caller's buffer. */
module EditDistance {
  import opened CString
  import Utf8

  function Min3(a: int, b: int, c: int): int {
    var min := if b < a then b else a;
    if c < min then c else min
  }

  /** The distance of `a[..i]` and `b[..j]`. */
  function Dist(a: seq<int>, b: seq<int>, i: nat, j: nat): (d: nat)
    requires i <= |a| && j <= |b|
    decreases i + j
  {
    if i == 0 then j
    else if j == 0 then i
    else
      Min3(Dist(a, b, i - 1, j) + 1, Dist(a, b, i, j - 1) + 1,
           Dist(a, b, i - 1, j - 1) + if a[i - 1] != b[j - 1] then 1 else 0)
  }

  function Distance(a: seq<int>, b: seq<int>): nat {
    Dist(a, b, |a|, |b|)
  }

  lemma DistStep(a: seq<int>, b: seq<int>, i: nat, j: nat)
    requires i <= |a| && j <= |b|
    ensures i == 0 ==> Dist(a, b, i, j) == j
    ensures j == 0 ==> Dist(a, b, i, j) == i
    ensures i > 0 && j > 0 ==>
              Dist(a, b, i, j) == Min3(Dist(a, b, i - 1, j) + 1, Dist(a, b, i, j - 1) + 1,
                                       Dist(a, b, i - 1, j - 1) + if a[i - 1] != b[j - 1] then 1 else 0)
  {
  }

  lemma {:induction false} DistSymmetric(a: seq<int>, b: seq<int>, i: nat, j: nat)
    requires i <= |a| && j <= |b|
    ensures Dist(a, b, i, j) == Dist(b, a, j, i)
    decreases i + j
  {
    hide Dist;
    DistStep(a, b, i, j);
    DistStep(b, a, j, i);
    if i > 0 && j > 0 {
      DistSymmetric(a, b, i - 1, j);
      DistSymmetric(a, b, i, j - 1);
      DistSymmetric(a, b, i - 1, j - 1);
    }
  }

  lemma DistanceSymmetric(a: seq<int>, b: seq<int>)
    ensures Distance(a, b) == Distance(b, a)
  {
    DistSymmetric(a, b, |a|, |b|);
  }

  // What the distance means: the least number of single edits.

  datatype Edit = Insert(pos: nat, c: int) | Delete(pos: nat) | Substitute(pos: nat, c: int)

  predicate CanApply(s: seq<int>, e: Edit) {
    if e.Insert? then e.pos <= |s| else e.pos < |s|
  }

  function Apply(s: seq<int>, e: Edit): seq<int>
    requires CanApply(s, e)
  {
    match e
    case Insert(pos, c) => s[..pos] + [c] + s[pos..]
    case Delete(pos) => s[..pos] + s[pos + 1..]
    case Substitute(pos, c) => s[pos := c]
  }

  /** The edits `es` turn `a` into `b`, one after the other. */
  predicate Edits(a: seq<int>, es: seq<Edit>, b: seq<int>)
    decreases es
  {
    if es == [] then a == b else CanApply(a, es[0]) && Edits(Apply(a, es[0]), es[1..], b)
  }

  lemma NoEdits(a: seq<int>)
    ensures Edits(a, [], a)
  {
  }

  lemma {:induction false} EditsThen(a: seq<int>, es: seq<Edit>, b: seq<int>, e: Edit)
    requires Edits(a, es, b) && CanApply(b, e)
    ensures Edits(a, es + [e], Apply(b, e))
    decreases es
  {
    if es == [] {
      assert [e][1..] == [];
    } else {
      EditsThen(Apply(a, es[0]), es[1..], b, e);
      assert (es + [e])[1..] == es[1..] + [e];
    }
  }

  // One more edit at the end of a prefix `p`.

  lemma ThenDelete(a: seq<int>, es: seq<Edit>, p: seq<int>, x: int, rest: seq<int>)
    requires Edits(a, es, p + ([x] + rest))
    ensures Edits(a, es + [Delete(|p|)], p + rest)
  {
    hide Edits;
    var q := p + ([x] + rest);
    EditsThen(a, es, q, Delete(|p|));
    assert q[..|p|] == p && q[|p| + 1..] == rest;
  }

  lemma ThenInsert(a: seq<int>, es: seq<Edit>, p: seq<int>, c: int, rest: seq<int>)
    requires Edits(a, es, p + rest)
    ensures Edits(a, es + [Insert(|p|, c)], p + [c] + rest)
  {
    hide Edits;
    var q := p + rest;
    EditsThen(a, es, q, Insert(|p|, c));
    assert q[..|p|] == p && q[|p|..] == rest;
  }

  lemma ThenSubstitute(a: seq<int>, es: seq<Edit>, p: seq<int>, x: int, c: int, rest: seq<int>)
    requires Edits(a, es, p + ([x] + rest))
    ensures Edits(a, es + [Substitute(|p|, c)], p + [c] + rest)
  {
    hide Edits;
    var q := p + ([x] + rest);
    EditsThen(a, es, q, Substitute(|p|, c));
    assert q[|p| := c] == p + [c] + rest;
  }

  /** The last edit on the way to a cell. */
  lemma LastStep(a: seq<int>, b: seq<int>, i: nat, j: nat)
    requires i <= |a| && j <= |b|
    ensures i == 0 && j == 0 ==> Dist(a, b, i, j) == 0
    ensures i > 0 && j == 0 ==> Dist(a, b, i, j) == Dist(a, b, i - 1, j) + 1
    ensures i == 0 && j > 0 ==> Dist(a, b, i, j) == Dist(a, b, i, j - 1) + 1
    ensures i > 0 && j > 0 ==>
              || Dist(a, b, i, j) == Dist(a, b, i - 1, j) + 1
              || Dist(a, b, i, j) == Dist(a, b, i, j - 1) + 1
              || Dist(a, b, i, j) == Dist(a, b, i - 1, j - 1) + if a[i - 1] != b[j - 1] then 1 else 0
  {
  }

  /** That many edits suffice, whatever follows the prefixes. */
  lemma {:induction false} EnoughEdits(a: seq<int>, b: seq<int>, i: nat, j: nat, rest: seq<int>) returns (es: seq<Edit>)
    requires i <= |a| && j <= |b|
    ensures |es| == Dist(a, b, i, j) && Edits(a[..i] + rest, es, b[..j] + rest)
    decreases i + j
  {
    hide Dist, Edits, Min3, Apply, CanApply;
    LastStep(a, b, i, j);
    if i == 0 && j == 0 {
      es := [];
      assert a[..0] + rest == rest == b[..0] + rest;
      NoEdits(rest);
    } else if i > 0 && (j == 0 || Dist(a, b, i, j) == Dist(a, b, i - 1, j) + 1) {
      var x := a[i - 1];
      es := EnoughEdits(a, b, i - 1, j, [x] + rest);
      assert a[..i - 1] + ([x] + rest) == a[..i] + rest;
      ThenDelete(a[..i] + rest, es, b[..j], x, rest);
      es := es + [Delete(j)];
    } else if i == 0 || Dist(a, b, i, j) == Dist(a, b, i, j - 1) + 1 {
      es := EnoughEdits(a, b, i, j - 1, rest);
      ThenInsert(a[..i] + rest, es, b[..j - 1], b[j - 1], rest);
      assert b[..j - 1] + [b[j - 1]] == b[..j];
      es := es + [Insert(j - 1, b[j - 1])];
    } else {
      var x := a[i - 1];
      es := EnoughEdits(a, b, i - 1, j - 1, [x] + rest);
      assert a[..i - 1] + ([x] + rest) == a[..i] + rest;
      assert b[..j - 1] + [b[j - 1]] == b[..j];
      if x == b[j - 1] {
        assert b[..j - 1] + ([x] + rest) == b[..j] + rest;
      } else {
        ThenSubstitute(a[..i] + rest, es, b[..j - 1], x, b[j - 1], rest);
        es := es + [Substitute(j - 1, b[j - 1])];
      }
    }
  }

  /** Neighbouring cells differ by at most one. */
  lemma {:induction false} Neighbours(a: seq<int>, b: seq<int>, i: nat, j: nat)
    requires i < |a| && j <= |b|
    ensures -1 <= Dist(a, b, i + 1, j) - Dist(a, b, i, j) <= 1
    decreases j
  {
    hide Dist;
    DistStep(a, b, i, j);
    DistStep(a, b, i + 1, j);
    if j > 0 {
      Neighbours(a, b, i, j - 1);
      DistStep(a, b, i, j - 1);
    }
  }

  /** Taking one character out changes the distance by at most one. */
  lemma {:induction false} DeleteIsOne(x: seq<int>, pos: nat, b: seq<int>, i: nat, j: nat)
    requires pos <= i < |x| && j <= |b|
    ensures -1 <= Dist(x, b, i + 1, j) - Dist(x[..pos] + x[pos + 1..], b, i, j) <= 1
    decreases i + j
  {
    hide Dist;
    var y := x[..pos] + x[pos + 1..];
    DistStep(x, b, i + 1, j);
    DistStep(y, b, i, j);
    if i == pos {
      Neighbours(x, b, i, j);
      SamePrefix(x, y, b, i, j);
    } else if j > 0 {
      assert x[i] == y[i - 1];
      DeleteIsOne(x, pos, b, i - 1, j);
      DeleteIsOne(x, pos, b, i, j - 1);
      DeleteIsOne(x, pos, b, i - 1, j - 1);
    }
  }

  lemma {:induction false} SamePrefix(x: seq<int>, y: seq<int>, b: seq<int>, i: nat, j: nat)
    requires i <= |x| && i <= |y| && x[..i] == y[..i] && j <= |b|
    ensures Dist(x, b, i, j) == Dist(y, b, i, j)
    decreases i + j
  {
    hide Dist;
    DistStep(x, b, i, j);
    DistStep(y, b, i, j);
    if i > 0 && j > 0 {
      assert x[i - 1] == x[..i][i - 1] == y[i - 1];
      assert x[..i - 1] == x[..i][..i - 1] == y[..i - 1];
      SamePrefix(x, y, b, i - 1, j);
      SamePrefix(x, y, b, i, j - 1);
      SamePrefix(x, y, b, i - 1, j - 1);
    }
  }

  /** Changing one character changes the distance by at most one. */
  lemma {:induction false} SubstituteIsOne(x: seq<int>, pos: nat, c: int, b: seq<int>, i: nat, j: nat)
    requires pos < |x| && i <= |x| && j <= |b|
    ensures -1 <= Dist(x, b, i, j) - Dist(x[pos := c], b, i, j) <= 1
    ensures i <= pos ==> Dist(x, b, i, j) == Dist(x[pos := c], b, i, j)
    decreases i + j
  {
    hide Dist;
    DistStep(x, b, i, j);
    DistStep(x[pos := c], b, i, j);
    if i <= pos {
      SamePrefix(x, x[pos := c], b, i, j);
    } else if j > 0 {
      SubstituteIsOne(x, pos, c, b, i - 1, j);
      SubstituteIsOne(x, pos, c, b, i, j - 1);
      SubstituteIsOne(x, pos, c, b, i - 1, j - 1);
    }
  }

  lemma EditIsOne(s: seq<int>, e: Edit, b: seq<int>)
    requires CanApply(s, e)
    ensures Distance(s, b) <= Distance(Apply(s, e), b) + 1
  {
    hide Dist;
    match e
    case Insert(pos, c) =>
      var x := Apply(s, e);
      assert x[..pos] + x[pos + 1..] == s;
      DeleteIsOne(x, pos, b, |s|, |b|);
    case Delete(pos) =>
      DeleteIsOne(s, pos, b, |s| - 1, |b|);
    case Substitute(pos, c) =>
      SubstituteIsOne(s, pos, c, b, |s|, |b|);
  }

  lemma {:induction false} SameIsZero(b: seq<int>, i: nat)
    requires i <= |b|
    ensures Dist(b, b, i, i) == 0
  {
    if i > 0 {
      SameIsZero(b, i - 1);
    }
  }

  lemma {:induction false} NoFewerEdits(a: seq<int>, es: seq<Edit>, b: seq<int>)
    requires Edits(a, es, b)
    ensures Distance(a, b) <= |es|
    decreases es
  {
    if es == [] {
      SameIsZero(b, |b|);
    } else {
      NoFewerEdits(Apply(a, es[0]), es[1..], b);
      EditIsOne(a, es[0], b);
    }
  }

  /** The distance is the least number of insertions, deletions and substitutions that turn `a` into `b`. */
  lemma DistanceIsLeast(a: seq<int>, b: seq<int>)
    ensures exists es :: Edits(a, es, b) && |es| == Distance(a, b)
    ensures forall es :: Edits(a, es, b) ==> Distance(a, b) <= |es|
  {
    var es := EnoughEdits(a, b, |a|, |b|, []);
    assert a[..|a|] + [] == a && b[..|b|] + [] == b;
    forall es | Edits(a, es, b)
      ensures Distance(a, b) <= |es|
    {
      NoFewerEdits(a, es, b);
    }
  }

  /** The cells from `at` on hold the distances of `s[..k]` and `t[..j]` for `k < n`. */
  ghost predicate IsRow(buf: array<int>, at: nat, s: seq<int>, t: seq<int>, n: nat, j: nat)
    requires n <= |s| + 1 && j <= |t|
    reads buf
  {
    at + n <= buf.Length && forall k :: 0 <= k < n ==> buf[at + k] == Dist(s, t, k, j)
  }

  twostate predicate UnchangedOutside(buf: array<int>, from: nat, to: nat)
    reads buf
  {
    forall k :: 0 <= k < buf.Length && !(from <= k < to) ==> buf[k] == old(buf[k])
  }

  /** Where row `j` begins, the macro `B(0, j)`: rows alternate between the two halves. */
  function RowStart(start: nat, n: nat, j: nat): nat {
    if j % 2 == 1 then start + n else start
  }

  /** The row of the empty prefix. */
  method FirstRow(s: seq<int>, t: seq<int>, buf: array<int>, start: nat)
    requires start + |s| < buf.Length
    modifies buf
    ensures IsRow(buf, start, s, t, |s| + 1, 0)
    ensures UnchangedOutside(buf, start, start + |s| + 1)
  {
    hide Dist;
    for i := 0 to |s| + 1
      invariant IsRow(buf, start, s, t, i, 0)
      invariant UnchangedOutside(buf, start, start + |s| + 1)
    {
      DistStep(s, t, i, 0);
      buf[start + i] := i;
    }
  }

  /** One row, from the row before at `above`. */
  method FillRow(s: seq<int>, t: seq<int>, buf: array<int>, above: nat, row: nat, j: nat)
    requires 1 <= j <= |t|
    requires row + |s| < buf.Length && (row + |s| < above || above + |s| < row)
    requires IsRow(buf, above, s, t, |s| + 1, j - 1)
    modifies buf
    ensures IsRow(buf, row, s, t, |s| + 1, j)
    ensures UnchangedOutside(buf, row, row + |s| + 1)
  {
    hide Dist;
    DistStep(s, t, 0, j);
    buf[row] := j;
    for i := 1 to |s| + 1
      invariant IsRow(buf, row, s, t, i, j)
      invariant IsRow(buf, above, s, t, |s| + 1, j - 1)
      invariant UnchangedOutside(buf, row, row + |s| + 1)
    {
      DistStep(s, t, i, j);
      var subst := if s[i - 1] != t[j - 1] then 1 else 0;
      buf[row + i] := Min3(buf[row + (i - 1)] + 1, buf[above + i] + 1, buf[above + (i - 1)] + subst);
    }
  }

  /** The two alternating rows for `s` no longer than `t`. */
  method DistRows(s: seq<int>, t: seq<int>, buf: array<int>, start: nat) returns (result: int)
    requires start + 2 * (|s| + 1) <= buf.Length
    modifies buf
    ensures result == Distance(s, t)
    ensures UnchangedOutside(buf, start, start + 2 * (|s| + 1))
  {
    hide Dist;
    var n := |s| + 1;
    FirstRow(s, t, buf, start);
    for j := 1 to |t| + 1
      invariant IsRow(buf, RowStart(start, n, j - 1), s, t, n, j - 1)
      invariant UnchangedOutside(buf, start, start + 2 * n)
    {
      hide IsRow;
      FillRow(s, t, buf, RowStart(start, n, j - 1), RowStart(start, n, j), j);
    }
    result := buf[RowStart(start, n, |t|) + |s|];
  }

  /** `str_utf32_dist_buffer`. The rows live in `buf[start..start + bufLen]`; nothing else is written. */
  method Utf32DistBuffer(a: seq<int>, b: seq<int>, buf: array<int>, start: nat, bufLen: nat) returns (result: int)
    requires start + bufLen <= buf.Length
    requires bufLen >= (|a| + 1) + (|b| + 1)
    modifies buf
    ensures result == Distance(a, b)
    ensures UnchangedOutside(buf, start, start + bufLen)
    ensures buf[..start] == old(buf[..start])
  {
    hide Distance;
    var s, t := a, b;
    if |a| > |b| {
      s, t := b, a;
      DistanceSymmetric(a, b);
    }
    result := DistRows(s, t, buf, start);
  }

  lemma DecodeAllStep(s: seq<Byte>)
    ensures s == [] ==> Utf8.DecodeAll(s) == []
    ensures s != [] ==> var (c, n) := Utf8.DecodeHead(s); Utf8.DecodeAll(s) == [c] + Utf8.DecodeAll(s[n..])
  {
  }

  /** What is decoded of `s` up to `ptr`, and what is left of it. */
  ghost predicate DecodedUpTo(s: seq<Byte>, ptr: nat, cs: seq<int>)
    requires ptr <= |s|
  {
    cs + Utf8.DecodeAll(s[ptr..]) == Utf8.DecodeAll(s)
  }

  lemma NothingDecoded(s: seq<Byte>)
    ensures DecodedUpTo(s, 0, [])
  {
    hide Utf8.DecodeAll;
    assert s[0..] == s && [] + Utf8.DecodeAll(s) == Utf8.DecodeAll(s);
  }

  lemma DecodedMore(s: seq<Byte>, ptr: nat, cs: seq<int>)
    requires ptr <= |s| && DecodedUpTo(s, ptr, cs)
    ensures s[ptr..] == [] ==> cs == Utf8.DecodeAll(s)
    ensures s[ptr..] != [] ==> var (c, n) := Utf8.DecodeHead(s[ptr..]); DecodedUpTo(s, ptr + n, cs + [c])
  {
    hide Utf8.DecodeAll, Utf8.DecodeHead;
    DecodeAllStep(s[ptr..]);
    if s[ptr..] != [] {
      var (c, n) := Utf8.DecodeHead(s[ptr..]);
      assert s[ptr..][n..] == s[ptr + n..];
      var rest := Utf8.DecodeAll(s[ptr + n..]);
      assert cs + ([c] + rest) == cs + [c] + rest;
    } else {
      assert cs + [] == cs;
    }
  }

  /** `str_to_utf32_unchecked`: the decoded characters at `out`, with a 0 behind them. */
  method ToUtf32(str: seq<Byte>, buf: array<int>, out: nat) returns (outLen: nat)
    requires 0 in str && out + StrLength(str) + 1 <= buf.Length
    modifies buf
    ensures outLen == |Utf8.DecodeAll(Text(str))| <= StrLength(str)
    ensures buf[out..out + outLen] == Utf8.DecodeAll(Text(str))
    ensures UnchangedOutside(buf, out, out + StrLength(str) + 1)
    ensures buf[..out] == old(buf[..out])
  {
    hide Utf8.DecodeHead, Utf8.DecodeAll, StrLength, Text, DecodedUpTo;
    ghost var s := Text(str);
    var ptr: nat := 0;
    outLen := 0;
    assert str[0..] == str && s[0..] == s && buf[out..out] == [];
    NothingDecoded(s);
    while true
      invariant outLen <= ptr <= |s|
      invariant 0 in str[ptr..] && Text(str[ptr..]) == s[ptr..]
      invariant DecodedUpTo(s, ptr, buf[out..out + outLen])
      invariant UnchangedOutside(buf, out, out + |s| + 1)
      decreases |s| - ptr
    {
      var code, next := Utf8.DecodeStep(str, ptr);
      ghost var cs := buf[out..out + outLen];
      DecodedMore(s, ptr, cs);
      buf[out + outLen] := code;
      assert buf[out..out + outLen] == cs;
      Utf8.HeadIsZero(s[ptr..]);
      if code == 0 {
        return;
      }
      TextOfRest(str, next);
      assert buf[out..out + outLen + 1] == cs + [code];
      outLen := outLen + 1;
      ptr := next;
    }
  }

  /** `str_utf8_dist_buffer`: both texts decoded to the front of `buf`, the rows behind them, out of their way. */
  method Utf8DistBuffer(aUtf8: seq<Byte>, bUtf8: seq<Byte>, buf: array<int>, bufLen: nat) returns (result: int)
    requires 0 in aUtf8 && 0 in bUtf8 && bufLen <= buf.Length
    requires bufLen >= 2 * (StrLength(aUtf8) + 1 + StrLength(bUtf8) + 1)
    modifies buf
    ensures result == Distance(Utf8.DecodeAll(Text(aUtf8)), Utf8.DecodeAll(Text(bUtf8)))
  {
    hide Distance, Utf8.DecodeAll, StrLength, Text, UnchangedOutside;
    var s, t := aUtf8, bUtf8;
    if StrLength(aUtf8) > StrLength(bUtf8) {
      s, t := bUtf8, aUtf8;
      DistanceSymmetric(Utf8.DecodeAll(Text(aUtf8)), Utf8.DecodeAll(Text(bUtf8)));
    }
    var aLen := ToUtf32(s, buf, 0);
    var a := buf[..aLen];
    var bLen := ToUtf32(t, buf, aLen);
    assert buf[..aLen] == a;
    var b := buf[aLen..aLen + bLen];
    result := Utf32DistBuffer(a, b, buf, aLen + bLen, bufLen - bLen - aLen);
  }

  /** `str_utf8_dist` */
  method Utf8Dist(a: seq<Byte>, b: seq<Byte>) returns (result: int)
    requires 0 in a && 0 in b
    ensures result == Distance(Utf8.DecodeAll(Text(a)), Utf8.DecodeAll(Text(b)))
  {
    var bufLen := 2 * (StrLength(a) + 1 + StrLength(b) + 1);
    var buf := new int[bufLen](_ => 0);
    result := Utf8DistBuffer(a, b, buf, bufLen);
  }
}
