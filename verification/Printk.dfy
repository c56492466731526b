/** `printk`: a format interpreter over the console, with decimal conversion in a 32-byte buffer. */
module Printk {
  import opened Bytes
  import opened Paths
  import opened Strings
  import opened Console

  const ASCII_NUM_BASE: nat := 48
  const INT_MAX_DIGITS: nat := 32
  const PERCENT: byte := 37
  const D: byte := 100
  const S: byte := 115
  const C: byte := 99
  const BLACK: byte := 0
  const LBLUE: byte := 9

  type int32 = n: int | -0x8000_0000 <= n < 0x8000_0000

  // C's division truncates toward zero.

  function Quot10(a: int): int { if a >= 0 then a / 10 else -((-a) / 10) }

  function Rem10(a: int): (r: int)
    ensures -10 < r < 10 && (a >= 0 ==> r == a % 10) && (a <= 0 ==> r <= 0)
  {
    a - 10 * Quot10(a)
  }

  // Decimal numerals.

  /** The canonical numeral of a natural number. */
  function Digits(n: nat): (r: seq<byte>)
    ensures |r| > 0 && forall i :: 0 <= i < |r| ==> 48 <= r[i] < 58
  {
    if n < 10 then [48 + n] else Digits(n / 10) + [48 + n % 10]
  }

  /** The value of a numeral, read from the left. */
  function Value(s: seq<byte>): int {
    if s == [] then 0 else 10 * Value(s[..|s| - 1]) + (s[|s| - 1] as int - 48)
  }

  predicate Numeral(s: seq<byte>) { s != [] && forall i :: 0 <= i < |s| ==> 48 <= s[i] < 58 }

  /** What `itoa` leaves: of a negative number only the last digit, taken from below the character 0. */
  function Decimal(n: int): seq<byte> {
    if n < 0 then [48 + Rem10(n)] else Digits(n)
  }

  lemma {:induction false} DigitsValue(n: nat)
    ensures Value(Digits(n)) == n
    ensures Digits(n)[0] == 48 ==> n == 0
  {
    if n >= 10 {
      DigitsValue(n / 10);
      assert Digits(n)[..|Digits(n)| - 1] == Digits(n / 10);
    }
  }

  lemma {:induction false} DigitsFit(n: nat, k: nat)
    requires k > 0 && n < Power(k)
    ensures |Digits(n)| <= k
    decreases k
  {
    if n >= 10 {
      assert k > 1 && n / 10 < Power(k - 1) by {
        assert Power(k) == 10 * Power(k - 1);
        assert Power(0) == 1;
      }
      hide Power;
      DigitsFit(n / 10, k - 1);
    }
  }

  function Power(k: nat): nat { if k == 0 then 1 else 10 * Power(k - 1) }

  /** The printed numeral reads back as the number exactly when the number is not negative; then it has
      no leading zero. Every numeral and its terminator fit the buffer. */
  lemma DecimalRoundTripIff(n: int32)
    ensures Numeral(Decimal(n)) && Value(Decimal(n)) == n <==> n >= 0
    ensures n > 0 ==> Decimal(n)[0] != 48
    ensures |Decimal(n)| < 11 <= INT_MAX_DIGITS
  {
    if n >= 0 {
      DigitsValue(n);
      assert Power(10) == 10000000000 by {
        assert Power(5) == 100000;
      }
      DigitsFit(n, 10);
    } else {
      var s := Decimal(n);
      assert s[..0] == [];
      var d: int := s[0] as int - 48;
      assert Value(s) == d && (d < 0 ==> s[0] < 48);
    }
  }

  // The format language.

  /** A variadic argument; a string argument is a buffer with its terminator somewhere. */
  datatype Arg = Int(n: int32) | Str(s: seq<byte>) | Chr(c: int32)

  /** The conversion at the start of a format, if there is one. */
  function Token(f: seq<byte>): byte {
    if |f| > 1 && f[0] == PERCENT && f[1] in {D, S, C} then f[1] else 0
  }

  predicate Suits(token: byte, a: Arg) {
    if token == D then a.Int? else if token == S then a.Str? && Terminated(a.s) else a.Chr?
  }

  /** The arguments are enough and of the kinds that the format asks for. */
  predicate Fits(f: seq<byte>, args: seq<Arg>)
    decreases |f|
  {
    if f == [] then true
    else if Token(f) == 0 then Fits(f[1..], args)
    else args != [] && Suits(Token(f), args[0]) && Fits(f[2..], args[1..])
  }

  function Shown(a: Arg): seq<byte> {
    match a
    case Int(n) => Decimal(n)
    case Str(s) => CString(s)
    case Chr(c) => [c % 256]
  }

  /** The text that a format and its arguments stand for. */
  function Expand(f: seq<byte>, args: seq<Arg>): seq<byte>
    requires Fits(f, args)
    decreases |f|
  {
    if f == [] then []
    else if Token(f) == 0 then [f[0]] + Expand(f[1..], args)
    else Shown(args[0]) + Expand(f[2..], args[1..])
  }

  /** How many arguments a format takes. */
  function Takes(f: seq<byte>): nat
    decreases |f|
  {
    if f == [] then 0 else if Token(f) == 0 then Takes(f[1..]) else 1 + Takes(f[2..])
  }

  /** A format that does not end inside a conversion is expanded on its own: the arguments go to the
      conversions from left to right. */
  lemma {:induction false} ExpandConcat(f: seq<byte>, g: seq<byte>, args: seq<Arg>)
    requires f != [] ==> f[|f| - 1] != PERCENT
    requires Fits(f + g, args)
    ensures Takes(f) <= |args| && Fits(f, args[..Takes(f)]) && Fits(g, args[Takes(f)..])
    ensures Expand(f + g, args) == Expand(f, args[..Takes(f)]) + Expand(g, args[Takes(f)..])
    decreases |f|
  {
    hide Token, Shown, Terminated, Fits, Expand, Takes, Suits;
    ExpandHead(f, args[..if Takes(f) <= |args| then Takes(f) else 0]);
    ExpandHead(f + g, args);
    if f == [] {
      assert f + g == g && args[0..] == args;
    } else {
      SameToken(f, g);
      if Token(f) == 0 {
        assert (f + g)[1..] == f[1..] + g;
        ExpandConcat(f[1..], g, args);
      } else {
        assert (f + g)[2..] == f[2..] + g;
        ExpandConcat(f[2..], g, args[1..]);
        Slices(args, Takes(f[2..]));
      }
    }
  }

  lemma Slices(args: seq<Arg>, k: nat)
    requires k + 1 <= |args|
    ensures args[..k + 1][1..] == args[1..][..k] && args[1..][k..] == args[k + 1..] && args[..k + 1][0] == args[0]
  {
  }

  lemma ExpandHead(f: seq<byte>, args: seq<Arg>)
    ensures f == [] ==> Takes(f) == 0 && Fits(f, args) && Expand(f, args) == []
    ensures f != [] && Token(f) == 0 ==>
      Takes(f) == Takes(f[1..]) && (Fits(f, args) <==> Fits(f[1..], args))
      && (Fits(f, args) ==> Expand(f, args) == [f[0]] + Expand(f[1..], args))
    ensures f != [] && Token(f) != 0 ==>
      Takes(f) == 1 + Takes(f[2..])
      && Token(f) in {D, S, C}
      && (Fits(f, args) <==> args != [] && Suits(Token(f), args[0]) && Fits(f[2..], args[1..]))
      && (Fits(f, args) ==> Expand(f, args) == Shown(args[0]) + Expand(f[2..], args[1..]))
  {
    hide Shown, Terminated;
  }

  /** The conversion as the loop finds it, from a character and the one after it. */
  lemma TokenIs(f: seq<byte>, after: byte)
    requires f != [] && after == if |f| > 1 then f[1] else 0
    ensures Token(f) != 0 <==> f[0] == PERCENT && after in {D, S, C}
    ensures Token(f) != 0 ==> Token(f) == after && |f| > 1
  {
  }

  lemma SameToken(f: seq<byte>, g: seq<byte>)
    requires f != [] && f[|f| - 1] != PERCENT
    ensures Token(f + g) == Token(f) && (Token(f) != 0 ==> |f| > 1)
  {
  }

  lemma OneConversion(x: byte, a: Arg)
    requires x in {D, S, C} && Suits(x, a)
    ensures Fits([PERCENT, x], [a]) && Expand([PERCENT, x], [a]) == Shown(a)
  {
    hide Shown, Terminated;
    var f, args := [PERCENT, x], [a];
    assert f[2..] == [] && args[1..] == [];
    assert Expand([], []) == [];
    assert Shown(a) + [] == Shown(a);
  }

  /** "%d" stands for the decimal digits of a number that is not negative, without a leading zero, and for one
      character below 0 otherwise. */
  lemma NumberShown(n: int32)
    ensures Fits([37, 100], [Int(n)])
    ensures var r := Expand([37, 100], [Int(n)]);
      var m: int := n;
      if n < 0 then r == [48 - (-m) % 10]
      else Numeral(r) && Value(r) == n && (n >= 10 ==> r[0] != 48) && (n < 10 ==> r == [48 + n])
  {
    hide Expand, Fits, Value;
    OneConversion(D, Int(n));
    DecimalRoundTripIff(n);
  }

  /** The digits of 1024, and of 42 with a sign. */
  lemma NumberExamples()
    ensures Fits([37, 100], [Int(1024)]) && Expand([37, 100], [Int(1024)]) == [49, 48, 50, 52]
    ensures Fits([37, 100], [Int(-42)]) && Expand([37, 100], [Int(-42)]) == [46]
  {
    OneConversion(D, Int(1024));
    OneConversion(D, Int(-42));
    hide Expand, Fits;
    assert Digits(10) == [49, 48];
    assert Digits(102) == [49, 48, 50];
  }

  /** "%s" stands for the bytes of its argument before the first NUL. */
  lemma StringShown(s: seq<byte>, z: nat)
    requires z < |s| && s[z] == 0 && forall i :: 0 <= i < z ==> s[i] != 0
    ensures Fits([37, 115], [Str(s)]) && Expand([37, 115], [Str(s)]) == s[..z]
  {
    hide Expand, Fits, CString;
    OneConversion(S, Str(s));
    CStringIs(s, z);
  }

  /** "%c" stands for the low byte of its argument. */
  lemma CharacterShown(c: int32)
    ensures Fits([37, 99], [Chr(c)]) && Expand([37, 99], [Chr(c)]) == [c % 256]
  {
    hide Expand, Fits;
    OneConversion(C, Chr(c));
  }

  /** A percent sign before another character stands for itself and takes no argument. */
  lemma PercentShown(x: byte)
    requires x !in {100, 115, 99}
    ensures Fits([37, x], []) && Expand([37, x], []) == [37, x]
  {
    assert [37, x][1..] == [x] && [x][1..] == [];
    assert Expand([], []) == [];
    assert Expand([x], []) == [x] + [];
  }

  /** A format without the percent sign is printed as it is, whatever arguments there are. */
  lemma {:induction false} TextVerbatim(f: seq<byte>, args: seq<Arg>)
    requires PERCENT !in f
    ensures Fits(f, args) && Expand(f, args) == f
    decreases |f|
  {
    if f != [] {
      assert f[0] in f;
      TextVerbatim(f[1..], args);
      assert f == [f[0]] + f[1..];
    }
  }

  /** The arguments beyond those taken do not matter. */
  lemma {:induction false} ExtraArguments(f: seq<byte>, args: seq<Arg>, more: seq<Arg>)
    requires Fits(f, args)
    ensures Fits(f, args + more) && Expand(f, args + more) == Expand(f, args)
    decreases |f|
  {
    if f != [] {
      if Token(f) == 0 {
        ExtraArguments(f[1..], args, more);
      } else {
        assert (args + more)[1..] == args[1..] + more;
        ExtraArguments(f[2..], args[1..], more);
      }
    }
  }

  // The code.

  lemma {:induction false} ReversedSnoc(s: seq<byte>, x: byte)
    ensures Reversed(s + [x]) == [x] + Reversed(s)
  {
    if s != [] {
      assert (s + [x])[1..] == s[1..] + [x];
      ReversedSnoc(s[1..], x);
    } else {
      assert (s + [x])[1..] == [];
    }
  }

  /** One turn of the digit loop. */
  lemma LastDigit(n: int)
    ensures var d := Decimal(n);
      d != [] && d[|d| - 1] == 48 + Rem10(n) && d[..|d| - 1] == if Quot10(n) > 0 then Decimal(Quot10(n)) else []
    ensures 0 <= n ==> 0 <= Quot10(n) && (n > 0 ==> Quot10(n) < n)
    ensures n < 0 ==> Quot10(n) <= 0
  {
  }

  lemma DecimalBytes(n: int)
    ensures Decimal(n) != [] && forall i :: 0 <= i < |Decimal(n)| ==> Decimal(n)[i] != 0
  {
  }

  /** The last of the digits still to come goes in front of those that are there in reverse. */
  lemma DigitTurn(value: int32, left: seq<byte>, back: seq<byte>)
    requires left != [] && Decimal(value) == left + Reversed(back)
    ensures Decimal(value) == left[..|left| - 1] + Reversed(back + [left[|left| - 1]])
  {
    hide Decimal, Reversed;
    ReversedSnoc(back, left[|left| - 1]);
    assert left == left[..|left| - 1] + [left[|left| - 1]];
  }

  /** `itoa`: digits from the last to the first, then the string is reversed in place. */
  method Itoa(value: int32, str: array<byte>)
    requires str.Length == INT_MAX_DIGITS
    modifies str
    ensures Terminated(str[..]) && CString(str[..]) == Decimal(value)
  {
    hide Digits, Decimal, Reversed, CString, Terminated, Value, Quot10;
    DecimalRoundTripIff(value);
    DecimalBytes(value);
    var residual: int := value;
    var i := 0;
    ghost var left := Decimal(value);
    assert Reversed([]) == [] by {
      ReversedNil();
    }
    while true
      invariant i <= str.Length && left != [] && left == Decimal(residual)
      invariant Decimal(value) == left + Reversed(str[..i])
      invariant i + |left| == |Decimal(value)|
      decreases |left|
    {
      LastDigit(residual);
      DigitTurn(value, left, str[..i]);
      var digit: byte := Rem10(residual) + ASCII_NUM_BASE;
      str[i] := digit;
      assert str[..i + 1] == str[..i] + [digit];
      left := left[..|left| - 1];
      i := i + 1;
      residual := Quot10(residual);
      if residual <= 0 {
        break;
      }
      DecimalBytes(residual);
    }
    Finish(value, str, i);
  }

  lemma ReversedNil()
    ensures Reversed([]) == []
  {
  }

  /** The terminator and the reversal. */
  method Finish(ghost value: int32, str: array<byte>, i: nat)
    requires i < str.Length && Decimal(value) == Reversed(str[..i])
    modifies str
    ensures Terminated(str[..]) && CString(str[..]) == Decimal(value)
  {
    hide Digits, Decimal, Reversed, CString;
    DecimalBytes(value);
    forall k | 0 <= k < i
      ensures str[k] != 0
    {
      ReversedAt(str[..i], i - 1 - k);
      assert Decimal(value)[i - 1 - k] == str[k];
    }
    ghost var digits := str[..i];
    str[i] := 0;
    assert str[..i] == digits && str[..][i] == 0;
    CStringIs(str[..], i);
    StrRev(str);
    assert str[i..][0] == 0;
    forall k | 0 <= k < i
      ensures str[k] != 0
    {
      assert str[..i][k] == Decimal(value)[k];
    }
    CStringIs(str[..], i);
    assert str[..][i] == 0;
  }

  /** `print_str`, and the loop that prints the digits. */
  method PrintStr(out: Vga, str: seq<byte>)
    requires out.Valid() && Terminated(str)
    modifies out, out.cells
    ensures out.Valid() && out.text == old(out.text) + Styled(CString(str), BLACK, LBLUE)
  {
    hide Pos, LogCell, RowEnd, Scrolled, Styled, CString;
    ghost var z :| 0 <= z < |str| && str[z] == 0;
    var i := 0;
    assert Styled(str[..0], BLACK, LBLUE) == [];
    while str[i] != 0
      invariant 0 <= i <= z && out.Valid()
      invariant forall k :: 0 <= k < i ==> str[k] != 0
      invariant out.text == old(out.text) + Styled(str[..i], BLACK, LBLUE)
      decreases z - i
    {
      out.PrintChar(str[i], BLACK, LBLUE);
      StyledStep(str, i, BLACK, LBLUE);
      i := i + 1;
    }
    CStringIs(str, i);
  }

  /** `print_int`. */
  method PrintInt(out: Vga, value: int32)
    requires out.Valid()
    modifies out, out.cells
    ensures out.Valid() && out.text == old(out.text) + Styled(Decimal(value), BLACK, LBLUE)
  {
    hide Pos, LogCell, RowEnd, Scrolled, Styled, CString, Decimal, Terminated;
    var asciiValue := new byte[INT_MAX_DIGITS];
    Itoa(value, asciiValue);
    PrintStr(out, asciiValue[..]);
  }

  lemma StyledNil()
    ensures Styled([], BLACK, LBLUE) == []
  {
  }

  lemma StyledOne(c: byte)
    ensures Styled([c], BLACK, LBLUE) == [Glyph(c, BLACK, LBLUE)]
  {
  }

  lemma StyledConcat(s: seq<byte>, t: seq<byte>)
    ensures Styled(s + t, BLACK, LBLUE) == Styled(s, BLACK, LBLUE) + Styled(t, BLACK, LBLUE)
  {
  }

  /** Where the format is read: at its end stands the terminator. */
  lemma FormatAt(str: seq<byte>, i: nat)
    requires Terminated(str) && i <= |CString(str)|
    ensures var f := CString(str);
      && |f| < |str| && str[|f|] == 0 && (str[i] == 0 <==> i == |f|) && f[0..] == f
      && (i < |f| ==> f[i] == str[i] && f[i..][0] == str[i] && f[i..][1..] == f[i + 1..])
      && (i + 1 < |f| ==> f[i..][1] == str[i + 1] && f[i..][2..] == f[i + 2..])
      && (i + 1 == |f| ==> str[i + 1] == 0)
  {
    var z :| 0 <= z < |str| && str[z] == 0;
    CStringBounds(str, z);
  }

  lemma {:induction false} CStringBounds(s: seq<byte>, z: nat)
    requires z < |s| && s[z] == 0
    ensures var f := CString(s); |f| <= z && s[|f|] == 0 && f == s[..|f|] && 0 !in f
  {
    if s[0] != 0 {
      CStringBounds(s[1..], z - 1);
    }
  }

  /** `printk`: exactly the expansion goes to the console, and every conversion takes one argument. */
  method Printk(out: Vga, str: seq<byte>, args: seq<Arg>)
    requires out.Valid() && Terminated(str) && Fits(CString(str), args)
    modifies out, out.cells
    ensures out.Valid()
    ensures out.text == old(out.text) + Styled(Expand(CString(str), args), BLACK, LBLUE)
  {
    hide Pos, LogCell, RowEnd, Scrolled, Styled, CString, Fits, Expand, Token, Terminated, Shown, Suits;
    ghost var format := CString(str);
    ghost var was := out.text;
    ghost var shown: seq<byte> := [];
    FormatAt(str, 0);
    StyledNil();
    var i, next := 0, 0;
    while str[i] != 0
      invariant 0 <= i <= |format| < |str| && str[|format|] == 0 && 0 <= next <= |args| && out.Valid()
      invariant Fits(format[i..], args[next..])
      invariant Expand(format, args) == shown + Expand(format[i..], args[next..])
      invariant out.text == was + Styled(shown, BLACK, LBLUE)
      decreases |format| - i
    {
      FormatAt(str, i);
      ExpandHead(format[i..], args[next..]);
      TokenIs(format[i..], str[i + 1]);
      var token := if str[i] == PERCENT then str[i + 1] else 0;
      if token in {D, S, C} {
        PrintArg(out, token, args[next]);
        StyledConcat(shown, Shown(args[next]));
        Regroup(shown, Shown(args[next]), Expand(format[i + 2..], args[next + 1..]));
        shown := shown + Shown(args[next]);
        i, next := i + 2, next + 1;
      } else {
        out.PrintChar(str[i], BLACK, LBLUE);
        StyledOne(str[i]);
        StyledConcat(shown, [str[i]]);
        Regroup(shown, [str[i]], Expand(format[i + 1..], args[next..]));
        shown := shown + [str[i]];
        i := i + 1;
      }
    }
    FormatAt(str, i);
    ExpandHead(format[i..], args[next..]);
    assert shown + [] == shown;
  }

  lemma Regroup(a: seq<byte>, b: seq<byte>, c: seq<byte>)
    ensures a + (b + c) == a + b + c
  {
  }

  /** The three conversions. */
  method PrintArg(out: Vga, token: byte, arg: Arg)
    requires out.Valid() && token in {D, S, C} && Suits(token, arg)
    modifies out, out.cells
    ensures out.Valid() && out.text == old(out.text) + Styled(Shown(arg), BLACK, LBLUE)
  {
    hide Pos, LogCell, RowEnd, Scrolled, Styled, CString, Decimal, Terminated;
    if token == D {
      PrintInt(out, arg.n);
    } else if token == S {
      PrintStr(out, arg.s);
    } else {
      out.PrintChar(arg.c % 256, BLACK, LBLUE);
      StyledOne(arg.c % 256);
    }
  }

  /** A number on an empty log: its digit is in the first cell, in light blue on black. */
  method PrintSeven(cells: array<nat>) returns (out: Vga)
    requires cells.Length == CELLS
    modifies cells
    ensures out.Valid() && out.cells == cells && cells[0] == 0x0937 && out.at == 1
  {
    hide Pos, LogCell, RowEnd, Scrolled, Styled, Expand, Fits, Terminated, Cell, CString, Holds;
    var format: seq<byte> := [37, 100, 0];
    FormatSeven(format);
    out := new Vga(cells);
    Printk(out, format, [Int(7)]);
    OneGlyph(out.screen, Glyph(55, 0, 9));
    assert out.text == [Glyph(55, 0, 9)];
    CellIs(LogCell(out.screen, out.text, 0), 55, 0, 9);
    assert cells[0] == LogCell(out.screen, out.text, Scrolled(Pos(out.text)) * WIDTH + 0);
  }

  lemma FormatSeven(format: seq<byte>)
    requires format == [37, 100, 0]
    ensures Terminated(format) && Fits(CString(format), [Int(7)])
    ensures Styled(Expand(CString(format), [Int(7)]), 0, 9) == [Glyph(55, 0, 9)]
  {
    hide Expand, Fits, CString;
    CStringIs(format, 2);
    assert format[2] == 0 && format[..2] == [37, 100];
    NumberShown(7);
  }

  lemma OneGlyph(screen: seq<nat>, x: Glyph)
    requires x.c != NEWLINE
    ensures Pos([x]) == 1 && Scrolled(1) == 0 && Holds(LogCell(screen, [x], 0), x.c, x.background, x.foreground)
  {
    assert [x][..0] == [];
    LogHoldsText(screen, [x], 0);
  }
}
