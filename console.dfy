/** ANSI colour escapes of src/console.h: the SGR ("select graphic
    rendition") control sequence of ECMA-48 section 8.3.117, written as
    ESC '[' parameters separated by ';' and a final 'm'. */
module Console {
  import opened Wrappers
  import opened Strings

  const Esc: char := 27 as char

  // enum Color
  const Black := 0
  const Red := 1
  const Green := 2
  const Yellow := 3
  const Blue := 4
  const Magenta := 5
  const Cyan := 6
  const White := 7
  const Default := 9
  const Light := 60

  // enum Attributes
  const Reset := 0
  const Bright := 1
  const Dim := 2
  const Underline := 3
  const Blink := 4
  const Reverse := 5
  const Hidden := 6

  /** CC_CONSOLE_COLOR_DEFAULT and CC_ATTR(4), CC_ATTR(1). */
  const ResetSeq: string := [Esc] + "[0m"
  const UnderlineSeq: string := [Esc] + "[4m"
  const BoldSeq: string := [Esc] + "[1m"

  /** The parameters of an SGR sequence ESC [ p1 ; ... ; pn m, or None when
      the text is not one. */
  function SgrParams(s: string): Option<seq<int>> {
    if |s| < 3 || s[0] != Esc || s[1] != '[' || s[|s| - 1] != 'm' then None
    else ParseAll(Split(s[2..|s| - 1], ';'))
  }

  function ParseAll(parts: seq<string>): (r: Option<seq<int>>)
    ensures r.Some? ==> |r.value| == |parts|
  {
    if parts == [] then Some([])
    else match (ParseInt(parts[0]), ParseAll(parts[1..]))
      case (Ok(v), Some(vs)) => Some([v] + vs)
      case _ => None
  }

  /** console::color: the sprintf "%c[%d;%d;%dm" of 0x1B, attr, fg + 30 and
      bg + 40; `int` arguments, so the sums must stay in range. */
  function Color(attr: int, fg: int, bg: int): (r: string)
    requires InInt32(attr) && InInt32(fg + 30) && InInt32(bg + 40)
    ensures |r| >= 8 && r[0] == Esc && r[1] == '[' && r[|r| - 1] == 'm'
    ensures SgrParams(r) == Some([attr, fg + 30, bg + 40])
  {
    var a, f, b := IntToDecimal(attr), IntToDecimal(fg + 30), IntToDecimal(bg + 40);
    SgrOfThree(a, f, b, attr, fg + 30, bg + 40);
    [Esc, '['] + (a + ";" + f + ";" + b) + ['m']
  }

  lemma DecimalHasNoSep(n: int)
    ensures Absent(IntToDecimal(n), ';', 0, |IntToDecimal(n)|)
  {
    if n < 0 {
      assert IntToDecimal(n) == "-" + NatToDecimal(-n);
    }
  }

  lemma SplitThree(a: string, f: string, b: string)
    requires Absent(a, ';', 0, |a|) && Absent(f, ';', 0, |f|) && Absent(b, ';', 0, |b|)
    ensures Split(a + ";" + f + ";" + b, ';') == [a, f, b]
  {
    assert a + ";" + f + ";" + b == a + [';'] + (f + [';'] + b);
    SplitCons(a, ';', f + [';'] + b);
    SplitCons(f, ';', b);
    SplitNoSep(b, ';');
  }

  lemma ParseAllCons(p: string, rest: seq<string>, v: int, vs: seq<int>, ps: seq<string>, ws: seq<int>)
    requires ParseInt(p) == Ok(v) && ParseAll(rest) == Some(vs)
    requires ps == [p] + rest && ws == [v] + vs
    ensures ParseAll(ps) == Some(ws)
  {
    assert ps[1..] == rest;
  }

  lemma ParseThree(x: int, y: int, z: int)
    requires InInt32(x) && InInt32(y) && InInt32(z)
    ensures ParseAll([IntToDecimal(x), IntToDecimal(y), IntToDecimal(z)]) == Some([x, y, z])
  {
    ParseIntRoundTrip(x);
    ParseIntRoundTrip(y);
    ParseIntRoundTrip(z);
    var a, f, b := IntToDecimal(x), IntToDecimal(y), IntToDecimal(z);
    ParseAllCons(b, [], z, [], [b], [z]);
    ParseAllCons(f, [b], y, [z], [f, b], [y, z]);
    ParseAllCons(a, [f, b], x, [y, z], [a, f, b], [x, y, z]);
  }

  /** An SGR frame around `inner` yields the parameters written in it. */
  lemma SgrFrame(inner: string)
    ensures SgrParams([Esc, '['] + inner + ['m']) == ParseAll(Split(inner, ';'))
  {
    var r := [Esc, '['] + inner + ['m'];
    assert r[2..|r| - 1] == inner;
  }

  lemma SgrOfThree(a: string, f: string, b: string, x: int, y: int, z: int)
    requires a == IntToDecimal(x) && f == IntToDecimal(y) && b == IntToDecimal(z)
    requires InInt32(x) && InInt32(y) && InInt32(z)
    ensures SgrParams([Esc, '['] + (a + ";" + f + ";" + b) + ['m']) == Some([x, y, z])
  {
    DecimalHasNoSep(x);
    DecimalHasNoSep(y);
    DecimalHasNoSep(z);
    SplitThree(a, f, b);
    ParseThree(x, y, z);
    SgrFrame(a + ";" + f + ";" + b);
  }

  lemma SingleParam(s: string, n: nat)
    requires n < 10 && s == [Esc, '[', DigitChar(n), 'm']
    ensures SgrParams(s) == Some([n])
  {
    assert IntToDecimal(n) == [DigitChar(n)];
    ParseIntRoundTrip(n);
    assert s == [Esc, '['] + [DigitChar(n)] + ['m'];
    SgrFrame([DigitChar(n)]);
    SplitNoSep([DigitChar(n)], ';');
    ParseAllCons([DigitChar(n)], [], n, [], [[DigitChar(n)]], [n]);
  }

  /** The three fixed sequences are single-parameter SGR sequences. */
  lemma ConstantSequences()
    ensures SgrParams(ResetSeq) == Some([0])
    ensures SgrParams(UnderlineSeq) == Some([4])
    ensures SgrParams(BoldSeq) == Some([1])
  {
    SingleParam(ResetSeq, 0);
    SingleParam(UnderlineSeq, 4);
    SingleParam(BoldSeq, 1);
  }

  /** color(Reset, Blue, Black) is ESC "[0;34;40m". */
  lemma BlueOnBlack()
    ensures Color(Reset, Blue, Black) == [Esc] + "[0;34;40m"
  {
    var a, f, b := IntToDecimal(Reset), IntToDecimal(Blue + 30), IntToDecimal(Black + 40);
    assert a == "0";
    assert f == "34" by { assert NatToDecimal(34) == NatToDecimal(3) + [DigitChar(4)]; }
    assert b == "40" by { assert NatToDecimal(40) == NatToDecimal(4) + [DigitChar(0)]; }
    assert Color(Reset, Blue, Black) == [Esc, '['] + (a + ";" + f + ";" + b) + ['m'];
    BlueOnBlackText(a, f, b);
  }

  lemma BlueOnBlackText(a: string, f: string, b: string)
    requires a == "0" && f == "34" && b == "40"
    ensures [Esc, '['] + (a + ";" + f + ";" + b) + ['m'] == [Esc] + "[0;34;40m"
  {
  }
}
