/**
  The text of one diagnostic line as `yyerror` writes it to standard output:
  `<file>:<line>:<column>: error: <message>` followed by a newline.
  The line and column are C `int`s printed with `%u`. The model assumes a
  32-bit `int` and two's complement, as on the usual ABIs (C does not promise
  either), so they appear as their unsigned 32-bit value in decimal. A parser for such lines is given alongside,
  with the round trip proved: a tool that knows the file name recovers the
  position and the message from every line `yyerror` writes.
 */
module Diagnostics {

  datatype Option<T> = None | Some(value: T)

  /** 2^32: `%u` prints an `int`, assumed 32-bit two's complement, as a 32-bit unsigned value. */
  const Modulus32: int := 0x1_0000_0000

  /** The separator `yyerror` prints between the position and the message. */
  const Separator: string := ": error: "

  /** The unsigned 32-bit value that `%u` prints for the `int` x. */
  function Unsigned32(x: int): (r: nat)
    ensures r < Modulus32
    ensures (x - r) % Modulus32 == 0
    ensures 0 <= x < Modulus32 ==> r == x
    ensures -Modulus32 <= x < 0 ==> r == x + Modulus32
  {
    x % Modulus32
  }

  predicate IsDigit(c: char) {
    '0' <= c <= '9'
  }

  predicate AllDigits(s: string) {
    forall i :: 0 <= i < |s| ==> IsDigit(s[i])
  }

  function DigitChar(d: nat): (c: char)
    requires d < 10
    ensures IsDigit(c) && c as int - '0' as int == d
  {
    ('0' as int + d) as char
  }

  /** `n` written in decimal, as `printf` renders it. */
  function Decimal(n: nat): (r: string)
    ensures |r| >= 1
    ensures AllDigits(r)
    ensures r[0] == '0' ==> n == 0 && r == "0"
  {
    if n < 10 then [DigitChar(n)] else Decimal(n / 10) + [DigitChar(n % 10)]
  }

  /** The number a string of decimal digits denotes. */
  function DigitsValue(s: string): nat
    requires AllDigits(s)
  {
    if s == [] then 0
    else DigitsValue(s[..|s| - 1]) * 10 + (s[|s| - 1] as int - '0' as int)
  }

  lemma {:induction false} DecimalRoundTrip(n: nat)
    ensures DigitsValue(Decimal(n)) == n
  {
    if n >= 10 {
      var d := Decimal(n);
      assert d[..|d| - 1] == Decimal(n / 10);
      DecimalRoundTrip(n / 10);
    }
  }

  /** Index of the first ':' in s, or |s| when there is none. */
  function FirstColon(s: string): (i: nat)
    ensures i <= |s|
    ensures forall j :: 0 <= j < i ==> s[j] != ':'
    ensures i < |s| ==> s[i] == ':'
  {
    if s == [] || s[0] == ':' then 0 else 1 + FirstColon(s[1..])
  }

  lemma {:induction false} FirstColonAfterDigits(d: string, t: string)
    requires AllDigits(d)
    ensures FirstColon(d + [':'] + t) == |d|
  {
    if d != [] {
      assert (d + [':'] + t)[1..] == d[1..] + [':'] + t;
      FirstColonAfterDigits(d[1..], t);
    }
  }

  /** The line `yyerror` prints for `message` in file `file` at `line`:`column`. */
  function Format(file: string, line: int, column: int, message: string): string {
    file + ":" + Decimal(Unsigned32(line)) + ":" + Decimal(Unsigned32(column))
      + Separator + message + "\n"
  }

  /** What a reader of the output learns from one diagnostic line. */
  datatype Located = Located(line: nat, column: nat, message: string)

  /** The rest of s after the prefix p, or None when s does not start with p. */
  function StripPrefix(p: string, s: string): (r: Option<string>)
    ensures r.Some? <==> |p| <= |s| && s[..|p|] == p
    ensures r.Some? ==> s == p + r.value
  {
    if |p| <= |s| && s[..|p|] == p then Some(s[|p|..]) else None
  }

  /**
    Reads a non-empty run of decimal digits ended by a colon, and gives the
    number and what follows the colon.
   */
  function SplitNumber(s: string): Option<(nat, string)> {
    var i := FirstColon(s);
    if i == 0 || i == |s| || !AllDigits(s[..i]) then None
    else Some((DigitsValue(s[..i]), s[i + 1..]))
  }

  lemma SplitNumberOfDecimal(n: nat, t: string)
    ensures SplitNumber(Decimal(n) + [':'] + t) == Some((n, t))
  {
    var d := Decimal(n);
    var s := d + [':'] + t;
    FirstColonAfterDigits(d, t);
    assert s[..|d|] == d;
    assert s[|d| + 1..] == t;
    DecimalRoundTrip(n);
  }

  /** The message between the separator and the final newline. */
  function Message(s: string): Option<string> {
    var sep := Separator[1..];
    if |sep| + 1 <= |s| && s[..|sep|] == sep && s[|s| - 1] == '\n' then Some(s[|sep|..|s| - 1])
    else None
  }

  /**
    Reads a diagnostic line for a known file name: the file name and a colon,
    a decimal line, a colon, a decimal column, the separator, the message and
    a final newline. Anything else is None.
   */
  function Parse(file: string, text: string): Option<Located> {
    match StripPrefix(file + ":", text)
    case None => None
    case Some(rest) =>
      match SplitNumber(rest)
      case None => None
      case Some((line, rest2)) =>
        match SplitNumber(rest2)
        case None => None
        case Some((column, rest3)) =>
          match Message(rest3)
          case None => None
          case Some(message) => Some(Located(line, column, message))
  }

  /** Every line `yyerror` writes can be read back: position and message survive. */
  lemma FormatParseRoundTrip(file: string, line: int, column: int, message: string)
    ensures Parse(file, Format(file, line, column, message))
         == Some(Located(Unsigned32(line), Unsigned32(column), message))
  {
    var d1 := Decimal(Unsigned32(line));
    var d2 := Decimal(Unsigned32(column));
    var rest3 := Separator[1..] + message + "\n";
    var rest2 := d2 + [':'] + rest3;
    var rest := d1 + [':'] + rest2;
    assert Format(file, line, column, message) == (file + ":") + rest;
    assert StripPrefix(file + ":", (file + ":") + rest) == Some(rest);
    SplitNumberOfDecimal(Unsigned32(line), rest2);
    SplitNumberOfDecimal(Unsigned32(column), rest3);
    assert rest3[..|Separator[1..]|] == Separator[1..];
    assert rest3[|Separator[1..]|..|rest3| - 1] == message;
  }

  /** text is a diagnostic line for file whose message is message. */
  predicate ReportsMessage(file: string, text: string, message: string) {
    Parse(file, text).Some? && Parse(file, text).value.message == message
  }

  /** Every line `yyerror` writes for file reports its own message, whatever the position. */
  lemma FormatReportsMessage(file: string, line: int, column: int, message: string)
    ensures ReportsMessage(file, Format(file, line, column, message), message)
  {
    FormatParseRoundTrip(file, line, column, message);
  }

  /**
    When neither the file name nor the message holds a newline, a diagnostic
    is exactly one output line: its only newline is the last character.
   */
  lemma FormatIsOneLine(file: string, line: int, column: int, message: string)
    requires '\n' !in file && '\n' !in message
    ensures var text := Format(file, line, column, message);
      |text| > 0 && text[|text| - 1] == '\n' && '\n' !in text[..|text| - 1]
  {
    var text := Format(file, line, column, message);
    var d1 := Decimal(Unsigned32(line));
    var d2 := Decimal(Unsigned32(column));
    var body := file + ":" + d1 + ":" + d2 + Separator + message;
    assert text == body + "\n";
    assert text[..|text| - 1] == body;
    forall k | 0 <= k < |body| ensures body[k] != '\n' {
      if k < |file| {
        assert body[k] == file[k];
      } else if k == |file| {
        assert body[k] == ':';
      } else if k < |file| + 1 + |d1| {
        assert body[k] == d1[k - |file| - 1];
      } else if k == |file| + 1 + |d1| {
        assert body[k] == ':';
      } else if k < |file| + 2 + |d1| + |d2| {
        assert body[k] == d2[k - |file| - 2 - |d1|];
      } else if k < |file| + 2 + |d1| + |d2| + |Separator| {
        assert body[k] == Separator[k - |file| - 2 - |d1| - |d2|];
      } else {
        assert body[k] == message[k - |file| - 2 - |d1| - |d2| - |Separator|];
      }
    }
  }
}
