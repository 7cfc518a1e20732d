/** `CLoggerAsync` of src/base/log.cpp: a log message is one lock section of the asynchronous writer. */
module AsyncLogger {
  import opened CString
  import opened DecimalText
  import opened AsyncRing
  import AsyncBuffer
  import P = AsyncProtocol

  datatype Color = Color(r: Byte, g: Byte, b: Byte)

  datatype LogMessage = LogMessage(level: int, haveColor: bool, color: Color, line: seq<Byte>)

  const ESC: Byte := 0x1b

  /** The escape sequence that sets the color. */
  function SetColor(c: Color): (bytes: seq<Byte>)
    ensures |bytes| < 32
  {
    hide Decimal;
    ShortNumbers(c.r);
    ShortNumbers(c.g);
    ShortNumbers(c.b);
    [ESC] + Ascii("[38;2;") + Decimal(c.r) + Ascii(";") + Decimal(c.g) + Ascii(";") + Decimal(c.b) + Ascii("m")
  }

  function ResetColor(): seq<Byte> {
    [ESC] + Ascii("[0m")
  }

  function Newline(): seq<Byte> {
    Ascii("\n")
  }

  /** A message as it stands in the output. */
  function Rendered(m: LogMessage, truecolor: bool): seq<Byte> {
    if truecolor && m.haveColor then SetColor(m.color) + m.line + ResetColor() + Newline()
    else m.line + Newline()
  }

  // What a terminal makes of it.

  datatype Ink = Default | Rgb(r: int, g: int, b: int)

  /** A character on the screen. */
  datatype Shown = Shown(c: Byte, ink: Ink)

  datatype Field = Field(value: int, rest: seq<Byte>) | NoField

  /** A number and the mark behind it. */
  function ReadField(s: seq<Byte>, mark: Byte): (f: Field)
    ensures f.Field? ==> |f.rest| < |s|
  {
    var n := Digits(s);
    if n == [] || |n| == |s| || s[|n|] != mark then NoField else Field(Value(n), s[|n| + 1..])
  }

  datatype Escape = Sets(ink: Ink, rest: seq<Byte>) | Unknown

  /** An escape sequence, from behind its first byte: `[0m` is the default color, and `[38;2;r;g;bm` the color of red,
      green and blue. */
  function ReadEscape(s: seq<Byte>): (e: Escape)
    ensures e.Sets? ==> |e.rest| < |s|
  {
    if [91, 48, 109] <= s then Sets(Default, s[3..])
    else if [91, 51, 56, 59, 50, 59] <= s then
      var r := ReadField(s[6..], 59);
      var g := if r.Field? then ReadField(r.rest, 59) else NoField;
      var b := if g.Field? then ReadField(g.rest, 109) else NoField;
      if b.Field? then Sets(Rgb(r.value, g.value, b.value), b.rest) else Unknown
    else Unknown
  }

  function Display(s: seq<Byte>, ink: Ink): seq<Shown>
    decreases |s|
  {
    if s == [] then []
    else
      var e := if s[0] == ESC then ReadEscape(s[1..]) else Unknown;
      if e.Sets? then Display(e.rest, e.ink) else [Shown(s[0], ink)] + Display(s[1..], ink)
  }

  function Inked(line: seq<Byte>, ink: Ink): seq<Shown> {
    seq(|line|, i requires 0 <= i < |line| => Shown(line[i], ink))
  }

  lemma FieldIsRead(v: nat, mark: Byte, rest: seq<Byte>)
    requires !IsDigit(mark)
    ensures ReadField(Decimal(v) + ([mark] + rest), mark) == Field(v, rest)
  {
    hide Decimal, Value, Digits;
    var n := Decimal(v);
    DigitsOf(n, [mark] + rest);
    assert (n + ([mark] + rest))[|n| + 1..] == rest;
  }

  lemma ColorText(c: Color, rest: seq<Byte>)
    ensures SetColor(c) + rest ==
            [ESC] + ([91, 51, 56, 59, 50, 59] +
                     (Decimal(c.r) + ([59] + (Decimal(c.g) + ([59] + (Decimal(c.b) + ([109] + rest)))))))
    ensures ResetColor() + rest == [ESC] + ([91, 48, 109] + rest)
  {
    hide Decimal;
    assert Ascii("[38;2;") == [91, 51, 56, 59, 50, 59] && Ascii(";") == [59] && Ascii("m") == [109];
    assert Ascii("[0m") == [91, 48, 109];
  }

  lemma EscapesAreRead(c: Color, rest: seq<Byte>)
    ensures Display(SetColor(c) + rest, Default) == Display(rest, Rgb(c.r, c.g, c.b))
    ensures forall ink :: Display(ResetColor() + rest, ink) == Display(rest, Default)
  {
    hide SetColor, ResetColor, Decimal, ReadField;
    ColorText(c, rest);
    var blue := Decimal(c.b) + ([109] + rest);
    var green := Decimal(c.g) + ([59] + blue);
    var red := Decimal(c.r) + ([59] + green);
    FieldIsRead(c.r, 59, green);
    FieldIsRead(c.g, 59, blue);
    FieldIsRead(c.b, 109, rest);
    var s: seq<Byte> := [91, 51, 56, 59, 50, 59] + red;
    assert s[6..] == red && s[1] == 51;
    var reset: seq<Byte> := [91, 48, 109];
    assert !(reset <= s) by {
      assert reset[1] != s[1];
    }
    assert [91, 51, 56, 59, 50, 59] <= s;
    assert ReadEscape(s) == Sets(Rgb(c.r, c.g, c.b), rest);
    assert ([ESC] + s)[1..] == s;
    var t: seq<Byte> := [91, 48, 109] + rest;
    assert t[3..] == rest && ([ESC] + t)[1..] == t;
  }

  lemma {:induction false} PlainIsShown(line: seq<Byte>, rest: seq<Byte>, ink: Ink)
    requires ESC !in line
    ensures Display(line + rest, ink) == Inked(line, ink) + Display(rest, ink)
  {
    hide ReadEscape;
    if line == [] {
      assert line + rest == rest;
    } else {
      assert line[0] in line && (line + rest)[1..] == line[1..] + rest;
      PlainIsShown(line[1..], rest, ink);
      assert Inked(line, ink) == [Shown(line[0], ink)] + Inked(line[1..], ink);
    }
  }

  /** A message is shown as its line in its color, and the newline and all that comes behind it as without it. */
  lemma RenderedIsShown(m: LogMessage, truecolor: bool, rest: seq<Byte>)
    requires ESC !in m.line
    ensures var ink := if truecolor && m.haveColor then Rgb(m.color.r, m.color.g, m.color.b) else Default;
            Display(Rendered(m, truecolor) + rest, Default) ==
            Inked(m.line, ink) + ([Shown(10, Default)] + Display(rest, Default))
  {
    hide SetColor, ResetColor, Display, Inked;
    assert Newline() == [10];
    ShownNewline(rest);
    if truecolor && m.haveColor {
      var behind := ResetColor() + ([10] + rest);
      EscapesAreRead(m.color, [10] + rest);
      EscapesAreRead(m.color, m.line + behind);
      PlainIsShown(m.line, behind, Rgb(m.color.r, m.color.g, m.color.b));
      assert Rendered(m, truecolor) + rest == SetColor(m.color) + (m.line + behind);
    } else {
      PlainIsShown(m.line, [10] + rest, Default);
      assert Rendered(m, truecolor) + rest == m.line + ([10] + rest);
    }
  }

  lemma ShownNewline(rest: seq<Byte>)
    ensures Display([10] + rest, Default) == [Shown(10, Default)] + Display(rest, Default)
  {
    assert ([10] + rest)[1..] == rest;
  }

  class LoggerAsync {
    const aio: AsyncBuffer.AsyncIo
    const ansiTruecolor: bool
    var maxLevel: int

    /** The buffer behind a fresh `aio_new`. */
    constructor (ansiTruecolor: bool, maxLevel: int)
      ensures fresh(aio) && fresh(aio.buffer) && aio.Valid() && aio.Contents() == []
      ensures this.ansiTruecolor == ansiTruecolor && this.maxLevel == maxLevel
    {
      aio := new AsyncBuffer.AsyncIo();
      this.ansiTruecolor := ansiTruecolor;
      this.maxLevel := maxLevel;
    }

    /** Nothing for a filtered message; otherwise the whole message goes behind the queue. */
    method Log(m: LogMessage)
      requires aio.Valid() && |aio.Contents()| + |Rendered(m, ansiTruecolor)| + 1 <= MAX_SIZE
      modifies aio, aio.buffer
      ensures aio.Valid() && (aio.buffer == old(aio.buffer) || fresh(aio.buffer))
      ensures aio.Contents() ==
              old(aio.Contents()) + if m.level > maxLevel then [] else Rendered(m, ansiTruecolor)
    {
      hide SetColor, ResetColor, Newline, AsyncBuffer.AsyncIo.Valid, AsyncBuffer.AsyncIo.Contents, Appends, Fits;
      ghost var before := aio.Contents();
      ghost var written: seq<Byte> := [];
      assert before + written == before;
      if m.level > maxLevel {
        return;
      }
      if ansiTruecolor && m.haveColor {
        aio.WriteUnlocked(SetColor(m.color));
        written := SetColor(m.color);
      }
      aio.WriteUnlocked(m.line);
      Behind(before, written, m.line);
      written := written + m.line;
      if ansiTruecolor && m.haveColor {
        aio.WriteUnlocked(ResetColor());
        Behind(before, written, ResetColor());
        written := written + ResetColor();
      }
      aio.WriteUnlocked(Newline());
      Behind(before, written, Newline());
      assert written + Newline() == Rendered(m, ansiTruecolor);
    }
  }

  lemma Behind(a: seq<Byte>, b: seq<Byte>, c: seq<Byte>)
    ensures a + b + c == a + (b + c)
  {
  }

  // The same message in the step system.

  /** The payloads `Log` hands to `aio_write_unlocked`, one by one. */
  function LogWrites(m: LogMessage, truecolor: bool): seq<seq<Byte>> {
    if truecolor && m.haveColor then [SetColor(m.color), m.line, ResetColor(), Newline()]
    else [m.line, Newline()]
  }

  lemma {:induction false} WritesAreRendered(m: LogMessage, truecolor: bool)
    ensures P.Flatten(LogWrites(m, truecolor)) == Rendered(m, truecolor)
  {
    hide SetColor, ResetColor, Newline;
    var ws := LogWrites(m, truecolor);
    FlattenTwo(ws[0], ws[1]);
    if |ws| == 4 {
      assert [ws[0], ws[1]] + [ws[2]] == ws[..3] && ws[..3] + [ws[3]] == ws;
      P.FlattenSnoc([ws[0], ws[1]], ws[2]);
      P.FlattenSnoc(ws[..3], ws[3]);
    }
  }

  lemma FlattenTwo(a: seq<Byte>, b: seq<Byte>)
    ensures P.Flatten([a, b]) == a + b
  {
    assert [a, b] == [a] + [b];
    P.FlattenSnoc([a], b);
    assert P.Flatten([a]) == a;
  }

  /** The payloads client `c` wrote. */
  function WritesOf(c: nat, actions: seq<P.Action>): seq<seq<Byte>> {
    if actions == [] then []
    else
      var a := actions[|actions| - 1];
      WritesOf(c, actions[..|actions| - 1]) + if a.Write? && a.c == c then [a.p] else []
  }

  lemma {:induction false} WritesOfFlatten(c: nat, actions: seq<P.Action>)
    ensures P.Flatten(WritesOf(c, actions)) == P.WrittenBy(c, actions)
  {
    if actions == [] {
    } else {
      hide P.Flatten;
      var a := actions[|actions| - 1];
      var before := WritesOf(c, actions[..|actions| - 1]);
      WritesOfFlatten(c, actions[..|actions| - 1]);
      if a.Write? && a.c == c {
        P.FlattenSnoc(before, a.p);
      } else {
        assert before + [] == before;
      }
    }
  }

  /** However many clients log: a message whose lock section ran from step `i` to step `k` is one piece of what the
      worker has written by the time it leaves, color, line, reset and newline, in lock order with all others. */
  lemma MessageIsContiguous(states: seq<P.State>, actions: seq<P.Action>, i: nat, k: nat, c: nat, m: LogMessage,
                            truecolor: bool)
    requires P.IsRun(states, actions) && i < k < |actions|
    requires actions[i] == P.Lock(c) && actions[k] == P.Unlock(c)
    requires forall j :: i < j < k ==> actions[j] != P.Unlock(c)
    requires WritesOf(c, actions[i..k]) == LogWrites(m, truecolor)
    ensures P.Written(actions[..k]) == P.Written(actions[..i]) + Rendered(m, truecolor)
    ensures P.WorkerLeft(states[|actions|]) ==>
              P.Written(actions[..i]) + Rendered(m, truecolor) <= states[|actions|].sink
  {
    hide P.IsRun, P.Written, P.WrittenBy, LogWrites, Rendered, WritesOf, P.WorkerLeft, P.Flatten, P.Next;
    P.SectionIsContiguous(states, actions, i, k, c) by {
      SectionPart(states, actions, k);
    }
    WritesOfFlatten(c, actions[i..k]);
    WritesAreRendered(m, truecolor);
    SectionPart(states, actions, k);
    P.ShutdownIsClean(states, actions, |actions|);
    assert actions[..|actions|] == actions;
    WrittenGrows(actions, k);
  }

  lemma SectionPart(states: seq<P.State>, actions: seq<P.Action>, k: nat)
    requires P.IsRun(states, actions)
    ensures |states| == |actions| + 1
  {
  }

  lemma {:induction false} WrittenGrows(actions: seq<P.Action>, k: nat)
    requires k <= |actions|
    ensures P.Written(actions[..k]) <= P.Written(actions)
  {
    if k == |actions| {
      assert actions[..k] == actions;
    } else {
      var rest := actions[..|actions| - 1];
      WrittenGrows(rest, k);
      assert rest[..k] == actions[..k];
    }
  }
}
