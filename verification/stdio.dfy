/**
 * The monitor's small stdio (c/mon-stdio.c): the line editor m_gets, the
 * number-to-text routines prt10 and prt16, and the formatter m_xprintf behind
 * m_printf. Characters read (m_readchar) are a given input sequence;
 * characters written (m_writechar, m_putc) are returned as an output sequence.
 */
module MonStdio {
  import opened MonitorDefs

  // ================================================================ m_gets

  /** isreturn: the characters that end an input line. */
  predicate IsReturn(c: char)
  {
    c == LF || c == CR
  }

  /** The line being edited and everything echoed so far. */
  datatype Edit = Edit(text: seq<char>, echo: seq<char>)

  /** The effect of one keystroke that is not a return, with room for max characters. */
  function Key(e: Edit, c: char, max: int): Edit
  {
    if c == BS || c == DEL then
      if |e.text| > 0 then Edit(e.text[..|e.text| - 1], e.echo + [BS, ' ', BS])
      else Edit(e.text, e.echo + [BEL])
    else if |e.text| < max && IsPrint(c) then Edit(e.text + [c], e.echo + [c])
    else Edit(e.text, e.echo + [BEL])
  }

  /** The effect of a sequence of keystrokes, none of them a return, on an empty line. */
  function Keys(cs: seq<char>, max: int): Edit
  {
    if cs == [] then Edit([], []) else Key(Keys(cs[..|cs| - 1], max), cs[|cs| - 1], max)
  }

  /** The length of the input before its first return (all of it when there is none). */
  function LineEnd(input: seq<char>): (n: nat)
    ensures n <= |input|
    ensures forall k :: 0 <= k < n ==> !IsReturn(input[k])
    ensures n < |input| ==> IsReturn(input[n])
  {
    if input == [] || IsReturn(input[0]) then 0 else 1 + LineEnd(input[1..])
  }

  /** What is stored keeps to the buffer: printable characters only, at most max of them. */
  ghost predicate Stored(text: seq<char>, max: int)
  {
    (text == [] || |text| <= max) && forall k :: 0 <= k < |text| ==> IsPrint(text[k])
  }

  /** Every keystroke keeps the stored text within the buffer and printable. */
  lemma KeyKeepsStored(e: Edit, c: char, max: int)
    requires Stored(e.text, max)
    ensures Stored(Key(e, c, max).text, max)
  {
  }

  /** Whatever is typed, the stored text stays printable and within max characters. */
  lemma {:induction false} KeysStored(cs: seq<char>, max: int)
    ensures Stored(Keys(cs, max).text, max)
    decreases |cs|
  {
    if cs != [] {
      KeysStored(cs[..|cs| - 1], max);
      KeyKeepsStored(Keys(cs[..|cs| - 1], max), cs[|cs| - 1], max);
    }
  }

  /** Echo is only ever appended to: a keystroke never takes back what was shown. */
  lemma {:induction false} KeysEchoGrows(cs: seq<char>, ds: seq<char>, max: int)
    ensures Keys(cs, max).echo <= Keys(cs + ds, max).echo
    decreases |ds|
  {
    if ds != [] {
      var n := |ds| - 1;
      assert (cs + ds)[..|cs + ds| - 1] == cs + ds[..n];
      assert Keys(cs + ds, max) == Key(Keys(cs + ds[..n], max), ds[n], max);
      KeysEchoGrows(cs, ds[..n], max);
    } else {
      assert cs + ds == cs;
    }
  }

  /** A printable character with room is stored and echoed; a rub-out then removes it again. */
  lemma RubOutUndoes(e: Edit, c: char, r: char, max: int)
    requires |e.text| < max && IsPrint(c) && (r == BS || r == DEL)
    ensures Key(e, c, max).text == e.text + [c]
    ensures Key(Key(e, c, max), r, max).text == e.text
    ensures Key(Key(e, c, max), r, max).echo == e.echo + [c, BS, ' ', BS]
  {
    assert (e.text + [c])[..|e.text|] == e.text;
  }

  /** A full buffer, an unprintable character or a rub-out on an empty line rings the bell and stores nothing. */
  lemma KeyRejected(e: Edit, c: char, max: int)
    requires (c == BS || c == DEL) ==> e.text == []
    requires !(c == BS || c == DEL) ==> |e.text| >= max || !IsPrint(c)
    ensures Key(e, c, max) == Edit(e.text, e.echo + [BEL])
  {
  }

  /** A line of at most max printable characters is stored and echoed exactly as typed. */
  lemma {:induction false} TypedLine(cs: seq<char>, max: int)
    requires |cs| <= max && forall k :: 0 <= k < |cs| ==> IsPrint(cs[k])
    ensures Keys(cs, max) == Edit(cs, cs)
    decreases |cs|
  {
    if cs != [] {
      TypedLine(cs[..|cs| - 1], max);
      assert cs[..|cs| - 1] + [cs[|cs| - 1]] == cs;
    }
  }

  /**
   * m_gets(buf, max): reads characters until a return, editing the line in
   * buf, which stays NUL-terminated throughout. When a return is read
   * (done), "\r\n" is echoed and the call completes; when the input runs out
   * first, the call is still waiting for a character.
   */
  method Gets(buf: array<char>, max: int, input: seq<char>) returns (done: bool, echo: seq<char>)
    requires buf.Length > 0 && buf.Length > max
    modifies buf
    ensures done <==> LineEnd(input) < |input|
    ensures var e := Keys(input[..LineEnd(input)], max);
      |e.text| < buf.Length && buf[..|e.text|] == e.text && buf[|e.text|] == NUL &&
      echo == if done then e.echo + [CR, LF] else e.echo
  {
    var i := 0;
    var j := 0;
    echo := [];
    buf[0] := NUL;
    while j < |input| && !IsReturn(input[j])
      invariant j <= LineEnd(input)
      invariant i < buf.Length && Keys(input[..j], max) == Edit(buf[..i], echo)
      invariant buf[i] == NUL
      decreases |input| - j
    {
      var c := input[j];
      ghost var before := Edit(buf[..i], echo);
      if c == BS || c == DEL {
        if i > 0 {
          i := i - 1;
          buf[i] := NUL;
          echo := echo + [BS, ' ', BS];
        } else {
          echo := echo + [BEL];
        }
      } else if i < max && ' ' <= c < DEL {
        buf[i] := c;
        buf[i + 1] := NUL;
        i := i + 1;
        echo := echo + [c];
      } else {
        echo := echo + [BEL];
      }
      assert Edit(buf[..i], echo) == Key(before, c, max);
      assert input[..j + 1][..j] == input[..j];
      j := j + 1;
    }
    done := j < |input|;
    buf[i] := NUL;
    if done {
      echo := echo + [CR, LF];
    }
  }

  // ================================================================ prt10 / prt16

  /** Size of the conversion buffer of m_xprintf, without its terminator. */
  const XPRINT_MAXSTR: nat := 31

  /** The decimal digit character for d. */
  function DigitChar(d: nat): (c: char)
    requires d < 10
    ensures IsDigit(c) && c as int - '0' as int == d
  {
    ('0' as int + d) as char
  }

  /** The hexadecimal digit for d, taking the letters for 10 .. 15 from letters. */
  function HexChar(d: nat, letters: seq<char>): char
    requires d < 16 && |letters| == 6
  {
    if d < 10 then DigitChar(d) else letters[d - 10]
  }

  /** A letter set for prt16: six hexadecimal digits standing for 10 .. 15. */
  predicate HexLetters(letters: seq<char>)
  {
    |letters| == 6 && forall k :: 0 <= k < 6 ==> IsXDigit(letters[k]) && DigitValue(letters[k]) == 10 + k
  }

  /** The two letter sets m_xprintf hands to prt16, for %x and %X, are such sets. */
  lemma CaseLetters()
    ensures HexLetters("abcdef") && HexLetters("ABCDEF")
  {
  }

  /** The decimal text of v: no leading zeros, "0" for zero. */
  function Decimal(v: nat): (s: seq<char>)
    ensures |s| >= 1
  {
    if v < 10 then [DigitChar(v)] else Decimal(v / 10) + [DigitChar(v % 10)]
  }

  /** The hexadecimal text of v over the given letters: no leading zeros, "0" for zero. */
  function Hex(v: nat, letters: seq<char>): (s: seq<char>)
    requires |letters| == 6
    ensures |s| >= 1
  {
    if v < 16 then [HexChar(v, letters)] else Hex(v / 16, letters) + [HexChar(v % 16, letters)]
  }

  /** Positions p .. p+n-1 all hold decimal digits. */
  predicate DigitsAt(s: seq<char>, p: nat, n: nat)
  {
    forall k :: p <= k < p + n ==> IsDigit(At(s, k))
  }

  /** The value of the n decimal digits at p, most significant first. */
  function DecimalValueAt(s: seq<char>, p: nat, n: nat): nat
    requires DigitsAt(s, p, n)
  {
    if n == 0 then 0 else 10 * DecimalValueAt(s, p, n - 1) + (At(s, p + n - 1) as int - '0' as int)
  }

  /** The value of n decimal digits at p does not depend on what follows them. */
  lemma {:induction false} DecimalValueExtend(s: seq<char>, t: seq<char>, n: nat)
    requires n <= |s| && DigitsAt(s, 0, n)
    ensures DigitsAt(s + t, 0, n)
    ensures DecimalValueAt(s + t, 0, n) == DecimalValueAt(s, 0, n)
  {
    assert forall k :: 0 <= k < n ==> At(s + t, k) == At(s, k);
    if n > 0 {
      DecimalValueExtend(s, t, n - 1);
    }
  }

  /** The value of n hexadecimal digits at p does not depend on what follows them. */
  lemma {:induction false} HexValueExtend(s: seq<char>, t: seq<char>, n: nat)
    requires n <= |s| && HexDigitsAt(s, 0, n)
    ensures HexDigitsAt(s + t, 0, n)
    ensures HexValueAt(s + t, 0, n) == HexValueAt(s, 0, n)
  {
    assert forall k :: 0 <= k < n ==> At(s + t, k) == At(s, k);
    if n > 0 {
      HexValueExtend(s, t, n - 1);
    }
  }

  /** prt10's text is all digits, has no leading zero and reads back as v. */
  lemma {:induction false} DecimalReadsBack(v: nat)
    ensures DigitsAt(Decimal(v), 0, |Decimal(v)|)
    ensures DecimalValueAt(Decimal(v), 0, |Decimal(v)|) == v
    ensures Decimal(v)[0] == '0' <==> v == 0
    ensures v == 0 ==> Decimal(v) == "0"
  {
    if v >= 10 {
      var s := Decimal(v / 10);
      DecimalReadsBack(v / 10);
      DecimalValueExtend(s, [DigitChar(v % 10)], |s|);
    }
  }

  /** A value below 10^n has at most n decimal digits. */
  lemma {:induction false} DecimalLength(v: nat, n: nat)
    requires n >= 1 && v < Pow(10, n)
    ensures |Decimal(v)| <= n
  {
    if v >= 10 {
      assert n >= 2;
      DecimalLength(v / 10, n - 1);
    }
  }

  /** Every digit prt16 writes is a hexadecimal digit of the right value. */
  lemma HexCharDigit(d: nat, letters: seq<char>)
    requires d < 16 && HexLetters(letters)
    ensures IsXDigit(HexChar(d, letters)) && DigitValue(HexChar(d, letters)) == d
  {
  }

  /** prt16's text is all hexadecimal digits, has no leading zero and reads back as v. */
  lemma {:induction false} HexReadsBack(v: nat, letters: seq<char>)
    requires HexLetters(letters)
    ensures HexDigitsAt(Hex(v, letters), 0, |Hex(v, letters)|)
    ensures HexValueAt(Hex(v, letters), 0, |Hex(v, letters)|) == v
    ensures Hex(v, letters)[0] == '0' <==> v == 0
  {
    var d := v % 16;
    HexCharDigit(d, letters);
    if v >= 16 {
      var s := Hex(v / 16, letters);
      HexReadsBack(v / 16, letters);
      HexValueExtend(s, [HexChar(d, letters)], |s|);
    }
  }

  /** A value below 16^n has at most n hexadecimal digits. */
  lemma {:induction false} HexLength(v: nat, n: nat, letters: seq<char>)
    requires |letters| == 6 && n >= 1 && v < Pow(16, n)
    ensures |Hex(v, letters)| <= n
  {
    if v >= 16 {
      assert n >= 2;
      HexLength(v / 16, n - 1, letters);
    }
  }

  /** What %x or %X prints of a 64-bit value, gethex reads back in full. */
  lemma HexGetHexRoundTrip(v: nat, letters: seq<char>)
    requires HexLetters(letters) && v < ADDR_LIMIT
    ensures GetHex(Hex(v, letters), 0, 16) == HexParse(v, Some(|Hex(v, letters)|))
  {
    var s := Hex(v, letters);
    Pow16Is2To64();
    HexLength(v, 16, letters);
    HexReadsBack(v, letters);
    HexRunAll(s, |s|, 16);
  }

  /** The run of hex digits at the start of s is the whole of s when s is all digits and short enough. */
  lemma {:induction false} HexRunAll(s: seq<char>, n: nat, max: nat)
    requires n == |s| <= max && HexDigitsAt(s, 0, n)
    ensures HexRun(s, 0, max) == n
  {
    HexRunFrom(s, 0, max);
  }

  lemma {:induction false} HexRunFrom(s: seq<char>, p: nat, max: nat)
    requires p <= |s| && |s| - p <= max && HexDigitsAt(s, p, |s| - p)
    ensures HexRun(s, p, max) == |s| - p
    decreases max
  {
    if p < |s| {
      HexRunFrom(s, p + 1, max - 1);
    }
  }

  /** 2^64 is below 10^20, so a 64-bit value has at most 20 decimal digits. */
  lemma Pow10Is20Digits()
    ensures ADDR_LIMIT < Pow(10, 20)
  {
    assert Pow(10, 5) == 100000;
    assert Pow(10, 10) == 10000000000 by {
      assert Pow(10, 6) == 1000000;
      assert Pow(10, 7) == 10000000;
      assert Pow(10, 8) == 100000000;
      assert Pow(10, 9) == 1000000000;
    }
    assert Pow(10, 15) == 1000000000000000 by {
      assert Pow(10, 11) == 100000000000;
      assert Pow(10, 12) == 1000000000000;
      assert Pow(10, 13) == 10000000000000;
      assert Pow(10, 14) == 100000000000000;
    }
    assert Pow(10, 20) == 100000000000000000000 by {
      assert Pow(10, 16) == 10000000000000000;
      assert Pow(10, 17) == 100000000000000000;
      assert Pow(10, 18) == 1000000000000000000;
      assert Pow(10, 19) == 10000000000000000000;
    }
  }

  /**
   * prt10(val, str): writes the decimal digits of val backwards so that
   * they end just before the terminator at str[31], and returns the index
   * of the first digit.
   */
  method Prt10(val: nat, str: array<char>) returns (start: nat)
    requires str.Length == XPRINT_MAXSTR + 1 && val < ADDR_LIMIT
    modifies str
    ensures start < XPRINT_MAXSTR && str[XPRINT_MAXSTR] == NUL
    ensures str[start..XPRINT_MAXSTR] == Decimal(val)
  {
    DecimalFits(val);
    start := XPRINT_MAXSTR;
    str[start] := NUL;
    var v := val;
    var first := true;
    while first || v != 0
      invariant start <= XPRINT_MAXSTR && str[XPRINT_MAXSTR] == NUL
      invariant first ==> v == val && start == XPRINT_MAXSTR
      invariant Decimal(val) == (if first || v != 0 then Decimal(v) else []) + str[start..XPRINT_MAXSTR]
      decreases v + (if first then 1 else 0)
    {
      var tmp := v / 10;
      assert v - tmp * 10 == v % 10;
      start := start - 1;
      str[start] := DigitChar(v - tmp * 10);
      v := tmp;
      first := false;
    }
  }

  /** A 64-bit value has at most 20 decimal digits. */
  lemma DecimalFits(v: nat)
    requires v < ADDR_LIMIT
    ensures |Decimal(v)| <= 20
  {
    Pow10Is20Digits();
    DecimalLength(v, 20);
  }

  /**
   * prt16(val, str, hexdgt): as Prt10 in base 16, taking the digits 10 .. 15
   * from the letter set it is given.
   */
  method Prt16(val: nat, str: array<char>, letters: seq<char>) returns (start: nat)
    requires str.Length == XPRINT_MAXSTR + 1 && val < ADDR_LIMIT && |letters| == 6
    modifies str
    ensures start < XPRINT_MAXSTR && str[XPRINT_MAXSTR] == NUL
    ensures str[start..XPRINT_MAXSTR] == Hex(val, letters)
  {
    HexFits(val, letters);
    start := XPRINT_MAXSTR;
    str[start] := NUL;
    var v := val;
    var first := true;
    while first || v != 0
      invariant start <= XPRINT_MAXSTR && str[XPRINT_MAXSTR] == NUL
      invariant first ==> v == val && start == XPRINT_MAXSTR
      invariant Hex(val, letters) == (if first || v != 0 then Hex(v, letters) else []) + str[start..XPRINT_MAXSTR]
      decreases v + (if first then 1 else 0)
    {
      var tmp := v % 16;
      var c := if tmp < 10 then ('0' as int + tmp) as char else letters[tmp - 10];
      assert c == HexChar(v % 16, letters);
      start := start - 1;
      str[start] := c;
      v := v / 16;
      first := false;
    }
  }

  /** A 64-bit value has at most 16 hexadecimal digits. */
  lemma HexFits(v: nat, letters: seq<char>)
    requires |letters| == 6 && v < ADDR_LIMIT
    ensures |Hex(v, letters)| <= 16
  {
    Pow16Is2To64();
    HexLength(v, 16, letters);
  }

  // ================================================================ m_xprintf

  /**
   * An argument of m_printf: an integer, given by the value the caller
   * passed in its 64-bit argument slot, or a string.
   */
  datatype Arg = Num(bits: int) | Str(chars: seq<char>)

  const INT_MIN: int := -0x8000_0000
  const UINT_RANGE: int := 0x1_0000_0000

  /** A 32-bit two's complement reading of the low 32 bits of v: va_arg(ap, int), (int) casts. */
  function Int32(v: int): (r: int)
    ensures INT_MIN <= r < -INT_MIN
  {
    var u := v % UINT_RANGE;
    if u < -INT_MIN then u else u - UINT_RANGE
  }

  /** A 64-bit two's complement reading of v: va_arg(ap, long), long arithmetic. */
  function Int64(v: int): (r: int)
    ensures -ADDR_LIMIT / 2 <= r < ADDR_LIMIT / 2
  {
    var u := v % ADDR_LIMIT;
    if u < ADDR_LIMIT / 2 then u else u - ADDR_LIMIT
  }

  /** va_arg for an integer conversion: long with 'l', int without. */
  function NumArg(args: seq<Arg>, k: nat, long: bool): Option<int>
  {
    if k < |args| && args[k].Num? then Some(if long then Int64(args[k].bits) else Int32(args[k].bits))
    else None
  }

  /** va_arg(ap, char *): the characters of a string argument. */
  function StrArg(args: seq<Arg>, k: nat): Option<seq<char>>
  {
    if k < |args| && args[k].Str? then Some(args[k].chars) else None
  }

  /** The number of consecutive decimal digits at p. */
  function DigitRun(s: seq<char>, p: nat): (n: nat)
    ensures DigitsAt(s, p, n) && !IsDigit(At(s, p + n))
    ensures n > 0 ==> p + n <= |s|
    decreases |s| - p
  {
    if IsDigit(At(s, p)) then 1 + DigitRun(s, p + 1) else 0
  }

  /** A number read from the format, with the format and argument positions after it. */
  datatype Read = Read(value: int, next: nat, nextArg: nat)

  /** The field width: '*' takes an int argument, otherwise decimal digits (none: 0). */
  function Width(fmt: seq<char>, p: nat, args: seq<Arg>, k: nat): Option<Read>
  {
    if At(fmt, p) == '*' then
      match NumArg(args, k, false)
      case None => None
      case Some(w) => Some(Read(w, p + 1, k + 1))
    else
      var n := DigitRun(fmt, p);
      Some(Read(DecimalValueAt(fmt, p, n), p + n, k))
  }

  /** The precision: 255 unless '.' follows, then '*' or decimal digits (none: 0). */
  function Precision(fmt: seq<char>, p: nat, args: seq<Arg>, k: nat): Option<Read>
  {
    if At(fmt, p) != '.' then Some(Read(255, p, k))
    else if At(fmt, p + 1) == '*' then
      match NumArg(args, k, false)
      case None => None
      case Some(m) => Some(Read(m, p + 2, k + 1))
    else
      var n := DigitRun(fmt, p + 1);
      Some(Read(DecimalValueAt(fmt, p + 1, n), p + 1 + n, k))
  }

  /** One conversion specification after its '%'. */
  datatype Directive = Directive(ljust: bool, fill: char, fmin: int, fmax: int, long: bool,
                                 conv: char, next: nat, nextArg: nat)

  /**
   * The flags of a conversion, in the only order accepted: '-', '0', the
   * width, '.' and the precision, 'l', then the conversion character.
   */
  function ParseDirective(fmt: seq<char>, p: nat, args: seq<Arg>, k: nat): (r: Option<Directive>)
    ensures r.Some? ==> p < r.value.next && k <= r.value.nextArg
    ensures r.Some? && r.value.conv != NUL ==> r.value.next <= |fmt|
  {
    var ljust := At(fmt, p) == '-';
    var p1 := if ljust then p + 1 else p;
    var fill := if At(fmt, p1) == '0' then '0' else ' ';
    var p2 := if At(fmt, p1) == '0' then p1 + 1 else p1;
    match Width(fmt, p2, args, k)
    case None => None
    case Some(w) =>
      match Precision(fmt, w.next, args, w.nextArg)
      case None => None
      case Some(m) =>
        var long := At(fmt, m.next) == 'l';
        var q := if long then m.next + 1 else m.next;
        Some(Directive(ljust, fill, w.value, m.value, long, At(fmt, q), q + 1, m.nextArg))
  }

  /** Which behaviour of the number conversions and field count to describe (see Findings). */
  datatype Variant = AsWritten | Intended

  /** The text to be placed in the field, whether a minus sign goes with it, and the next argument. */
  datatype Text = Text(str: seq<char>, sign: bool, nextArg: nat)

  /** The value an integer conversion is meant to print: the magnitude for %d, else the unsigned bits. */
  function IntendedValue(conv: char, long: bool, n: int): nat
  {
    if conv == 'd' && n < 0 then -n
    else if long then n % ADDR_LIMIT
    else n % UINT_RANGE
  }

  /** The digits an integer conversion prints for u. */
  function NumberDigits(conv: char, u: nat): seq<char>
  {
    if conv == 'd' || conv == 'u' then Decimal(u) else Hex(u, if conv == 'x' then "abcdef" else "ABCDEF")
  }

  /**
   * The digits of an integer conversion of n (read with va_arg) and its
   * sign. As written, %d negates in 64 bits, and without 'l' the result is
   * truncated back to int and sign-extended before the unsigned conversion.
   */
  function NumberText(conv: char, long: bool, n: int, v: Variant): Text
  {
    var sign := conv == 'd' && n < 0;
    var u :=
      if v == AsWritten then
        var n1 := if sign then Int64(-n) else n;
        var n2 := if long then n1 else Int32(n1);
        n2 % ADDR_LIMIT
      else IntendedValue(conv, long, n);
    Text(NumberDigits(conv, u), sign, 0)
  }

  /** The character a %c argument stands for: its low byte. */
  function CharOf(n: int): char
  {
    (n % 256) as char
  }

  /** The switch on the conversion character: the text of the field (a C string). */
  function Convert(d: Directive, args: seq<Arg>, v: Variant): Option<Text>
  {
    var k := d.nextArg;
    if d.conv == 'c' then
      match NumArg(args, k, d.long)
      case None => None
      case Some(n) => Some(Text([CharOf(n), NUL], false, k + 1))
    else if d.conv == 's' then
      match StrArg(args, k)
      case None => None
      case Some(s) => Some(Text(s, false, k + 1))
    else if d.conv == 'd' || d.conv == 'u' || d.conv == 'x' || d.conv == 'X' then
      match NumArg(args, k, d.long)
      case None => None
      case Some(n) => Some(NumberText(d.conv, d.long, n, v).(nextArg := k + 1))
    else Some(Text("***", false, k))
  }

  /** n copies of c (none when n is not positive). */
  function Rep(c: char, n: int): (r: seq<char>)
    ensures |r| == if n < 0 then 0 else n
    ensures forall i :: 0 <= i < |r| ==> r[i] == c
    decreases n
  {
    if n <= 0 then [] else Rep(c, n - 1) + [c]
  }

  /** Characters emitted and the amount added to the returned count. */
  datatype Printed = Printed(out: seq<char>, count: int)

  /** The number of characters of str shown: its length, cut to the precision. */
  function Shown(str: seq<char>, fmax: int, v: Variant): (len: int)
    ensures len <= CStrLen(str)
  {
    var len0 := CStrLen(str);
    if len0 > fmax && (v == AsWritten || fmax >= 0) then fmax else len0
  }

  /** The padding: what the width asks for beyond the text and the sign. */
  function Leading(len: int, fmin: int, sign: bool): (n: int)
    ensures n >= 0
  {
    if len < fmin then fmin - len - (if sign then 1 else 0) else 0
  }

  /**
   * The field: the text cut to the precision and padded with the fill
   * character to the width, on the left unless '-' was given; a minus sign
   * goes before zero padding and after space padding.
   */
  function Field(str: seq<char>, sign: bool, d: Directive, v: Variant): Printed
  {
    var len := Shown(str, d.fmax, v);
    var leading := Leading(len, d.fmin, sign);
    var signFirst := sign && d.fill == '0';
    var body := str[..if len < 0 then 0 else len];
    Printed((if signFirst then "-" else []) +
            (if d.ljust then [] else Rep(d.fill, leading)) +
            (if sign && !signFirst then "-" else []) +
            body +
            (if d.ljust then Rep(d.fill, leading) else []),
            len + leading + (if sign then 1 else 0))
  }

  /** What one step of the walk over the format emits, and where it continues. */
  datatype Piece = Piece(printed: Printed, next: nat, nextArg: nat, stop: bool)

  /** One step of m_xprintf at the format character p (not the terminator). */
  function Step(fmt: seq<char>, p: nat, args: seq<Arg>, k: nat, v: Variant): (r: Option<Piece>)
    requires At(fmt, p) != NUL
    ensures r.Some? && !r.value.stop ==> p < r.value.next <= |fmt|
  {
    var ch := At(fmt, p);
    if ch != '%' then Some(Piece(Printed([ch], 1), p + 1, k, false))
    else if At(fmt, p + 1) == '%' then Some(Piece(Printed(['%'], 1), p + 2, k, false))
    else
      match ParseDirective(fmt, p + 1, args, k)
      case None => None
      case Some(d) =>
        if d.conv == NUL then Some(Piece(Printed(['%'], 1), d.next, d.nextArg, true))
        else
          match Convert(d, args, v)
          case None => None
          case Some(t) => Some(Piece(Field(t.str, t.sign, d, v), d.next, t.nextArg, false))
  }

  /** The rest of the walk from format position p and argument k, after acc was printed. */
  function Run(fmt: seq<char>, p: nat, args: seq<Arg>, k: nat, acc: Printed, v: Variant): Option<Printed>
    decreases |fmt| - p
  {
    if At(fmt, p) == NUL then Some(acc)
    else
      match Step(fmt, p, args, k, v)
      case None => None
      case Some(s) =>
        var acc' := Printed(acc.out + s.printed.out, acc.count + s.printed.count);
        if s.stop then Some(acc') else Run(fmt, s.next, args, s.nextArg, acc', v)
  }

  /**
   * m_printf(fmt, ...): the output and the returned count; None when the
   * arguments do not match the format (undefined behaviour in C).
   */
  function Format(fmt: seq<char>, args: seq<Arg>, v: Variant): Option<Printed>
  {
    Run(fmt, 0, args, 0, Printed([], 0), v)
  }

  /** The decimal digit loops of m_xprintf: n = n * 10 + digit while digits follow. */
  method ReadNumber(fmt: seq<char>, p: nat) returns (value: int, q: nat)
    ensures q == p + DigitRun(fmt, p) && value == DecimalValueAt(fmt, p, DigitRun(fmt, p))
  {
    value := 0;
    q := p;
    while IsDigit(At(fmt, q))
      invariant p <= q && DigitsAt(fmt, p, q - p)
      invariant DigitRun(fmt, p) == q - p + DigitRun(fmt, q)
      invariant value == DecimalValueAt(fmt, p, q - p)
      decreases |fmt| - q
    {
      value := value * 10 + (At(fmt, q) as int - '0' as int);
      q := q + 1;
    }
  }

  /** The width part of m_xprintf's parsing: '*' or decimal digits. */
  method ReadWidth(fmt: seq<char>, p: nat, args: seq<Arg>, k: nat) returns (w: Read)
    requires Width(fmt, p, args, k).Some?
    ensures Width(fmt, p, args, k) == Some(w)
  {
    if At(fmt, p) == '*' {
      w := Read(Int32(args[k].bits), p + 1, k + 1);
    } else {
      var fmin, q := ReadNumber(fmt, p);
      w := Read(fmin, q, k);
    }
  }

  /** The precision part of m_xprintf's parsing: 255 unless '.' introduces '*' or digits. */
  method ReadPrecision(fmt: seq<char>, p: nat, args: seq<Arg>, k: nat) returns (m: Read)
    requires Precision(fmt, p, args, k).Some?
    ensures Precision(fmt, p, args, k) == Some(m)
  {
    m := Read(255, p, k);
    if At(fmt, p) == '.' {
      if At(fmt, p + 1) == '*' {
        m := Read(Int32(args[k].bits), p + 2, k + 1);
      } else {
        var fmax, q := ReadNumber(fmt, p + 1);
        m := Read(fmax, q, k);
      }
    }
  }

  /** The flag, width, precision and length parsing of m_xprintf. */
  method ReadDirective(fmt: seq<char>, p: nat, args: seq<Arg>, k: nat) returns (d: Directive)
    requires ParseDirective(fmt, p, args, k).Some?
    ensures ParseDirective(fmt, p, args, k) == Some(d)
  {
    var q := p;
    var ljust := false;
    var fill := ' ';
    if At(fmt, q) == '-' {
      ljust := true;
      q := q + 1;
    }
    if At(fmt, q) == '0' {
      fill := '0';
      q := q + 1;
    }
    var w := ReadWidth(fmt, q, args, k);
    var m := ReadPrecision(fmt, w.next, args, w.nextArg);
    q := m.next;
    var long := false;
    if At(fmt, q) == 'l' {
      long := true;
      q := q + 1;
    }
    d := Directive(ljust, fill, w.value, m.value, long, At(fmt, q), q + 1, m.nextArg);
  }

  /** The integer conversions: sign handling, the cast back to int, then prt10 or prt16. */
  method ConvertNumber(ch: char, long: bool, n: int, str: array<char>) returns (t: Text)
    requires str.Length == XPRINT_MAXSTR + 1
    modifies str
    ensures t == NumberText(ch, long, n, AsWritten)
  {
    var num := n;
    var sign := false;
    if ch == 'd' && num < 0 {
      sign := true;
      num := Int64(-num);
    }
    if !long {
      num := Int32(num);
    }
    var start;
    if ch == 'd' || ch == 'u' {
      start := Prt10(num % ADDR_LIMIT, str);
    } else {
      start := Prt16(num % ADDR_LIMIT, str, if ch == 'x' then "abcdef" else "ABCDEF");
    }
    t := Text(str[start..XPRINT_MAXSTR], sign, 0);
  }

  /** The switch on the conversion character, converting numbers in the buffer str. */
  method ConvertArg(d: Directive, args: seq<Arg>, str: array<char>) returns (t: Text)
    requires Convert(d, args, AsWritten).Some? && str.Length == XPRINT_MAXSTR + 1
    modifies str
    ensures Convert(d, args, AsWritten) == Some(t)
  {
    var k := d.nextArg;
    var ch := d.conv;
    if ch == 'c' {
      var n := if d.long then Int64(args[k].bits) else Int32(args[k].bits);
      str[0] := CharOf(n);
      str[1] := NUL;
      t := Text(str[..2], false, k + 1);
      assert t.str == [CharOf(n), NUL];
    } else if ch == 's' {
      t := Text(args[k].chars, false, k + 1);
    } else if ch == 'd' || ch == 'u' || ch == 'x' || ch == 'X' {
      var n := if d.long then Int64(args[k].bits) else Int32(args[k].bits);
      t := ConvertNumber(ch, d.long, n, str);
      t := t.(nextArg := k + 1);
    } else {
      t := Text("***", false, k);
    }
  }

  /** for (i = 0; i < n; i++) m_writechar(c): appends n copies of c. */
  method Pad(out: seq<char>, c: char, n: int) returns (r: seq<char>)
    ensures r == out + Rep(c, n)
  {
    r := out;
    if n > 0 {
      for i := 0 to n
        invariant r == out + Rep(c, i)
      {
        r := r + [c];
      }
    }
  }

  /** for (i = 0; i < len; i++) m_putc(*str++): appends the first len characters of str. */
  method PutChars(out: seq<char>, str: seq<char>, len: int) returns (r: seq<char>)
    requires len <= |str|
    ensures r == out + str[..if len < 0 then 0 else len]
  {
    r := out;
    if len > 0 {
      for i := 0 to len
        invariant r == out + str[..i]
      {
        assert str[..i + 1] == str[..i] + [str[i]];
        r := r + [str[i]];
      }
    }
  }

  /** Placing the text in its field: cut, pad, sign, and the count. */
  method EmitField(str: seq<char>, sign: bool, d: Directive) returns (out: seq<char>, count: int)
    ensures Field(str, sign, d, AsWritten) == Printed(out, count)
  {
    var s := if sign then 1 else 0;
    var leading := 0;
    var len := StrLen(str);
    if len > d.fmax {
      len := d.fmax;
    }
    if len < d.fmin {
      leading := d.fmin - len - s;
    }
    assert len == Shown(str, d.fmax, AsWritten) && leading == Leading(len, d.fmin, sign);
    count := len + leading + s;
    ghost var signFirst := sign && d.fill == '0';
    out := [];
    if s == 1 && d.fill == '0' {
      s := 0;
      out := out + ['-'];
    }
    ghost var a := out;
    assert a == if signFirst then "-" else [];
    if !d.ljust {
      out := Pad(out, d.fill, leading);
    }
    ghost var b := out;
    assert b == a + if d.ljust then [] else Rep(d.fill, leading);
    if s == 1 {
      out := out + ['-'];
    }
    ghost var c := out;
    assert c == b + if sign && !signFirst then "-" else [];
    out := PutChars(out, str, len);
    ghost var e := out;
    if d.ljust {
      out := Pad(out, d.fill, leading);
    }
    assert out == e + if d.ljust then Rep(d.fill, leading) else [];
  }

  /**
   * One pass of m_xprintf's loop at a format character that is not the
   * terminator: an ordinary character, "%%", a '%' at the end, or a
   * directive with its field.
   */
  method StepOnce(fmt: seq<char>, p: nat, args: seq<Arg>, k: nat, str: array<char>) returns (s: Piece)
    requires At(fmt, p) != NUL && Step(fmt, p, args, k, AsWritten).Some?
    requires str.Length == XPRINT_MAXSTR + 1
    modifies str
    ensures Step(fmt, p, args, k, AsWritten) == Some(s)
  {
    var ch := At(fmt, p);
    if ch != '%' {
      return Piece(Printed([ch], 1), p + 1, k, false);
    }
    if At(fmt, p + 1) == '%' {
      return Piece(Printed(['%'], 1), p + 2, k, false);
    }
    var d := ReadDirective(fmt, p + 1, args, k);
    if d.conv == NUL {
      return Piece(Printed(['%'], 1), d.next, d.nextArg, true);
    }
    var t := ConvertArg(d, args, str);
    var o, n := EmitField(t.str, t.sign, d);
    s := Piece(Printed(o, n), d.next, t.nextArg, false);
  }

  /**
   * m_xprintf: walks the format, printing ordinary characters, "%%" as '%',
   * and each conversion as a field; a '%' at the very end prints '%' and
   * ends the walk. Returns the characters written and the count it returns.
   */
  method XPrintf(fmt: seq<char>, args: seq<Arg>) returns (out: seq<char>, nprinted: int)
    requires Format(fmt, args, AsWritten).Some?
    ensures Format(fmt, args, AsWritten) == Some(Printed(out, nprinted))
  {
    var str := new char[XPRINT_MAXSTR + 1];
    var p: nat := 0;
    var k: nat := 0;
    out := [];
    nprinted := 0;
    while At(fmt, p) != NUL
      invariant Run(fmt, p, args, k, Printed(out, nprinted), AsWritten) == Format(fmt, args, AsWritten)
      invariant fresh(str) && str.Length == XPRINT_MAXSTR + 1
      decreases |fmt| - p
    {
      var stop;
      p, k, out, nprinted, stop := Advance(fmt, p, args, k, out, nprinted, str);
      if stop {
        return;
      }
    }
  }

  /**
   * One pass of the loop of m_xprintf, with what it appends to the output
   * and adds to the count; stop is set by a '%' at the end of the format.
   */
  method Advance(fmt: seq<char>, p: nat, args: seq<Arg>, k: nat, out: seq<char>, count: int, str: array<char>)
    returns (p': nat, k': nat, out': seq<char>, count': int, stop: bool)
    requires At(fmt, p) != NUL && Run(fmt, p, args, k, Printed(out, count), AsWritten).Some?
    requires str.Length == XPRINT_MAXSTR + 1
    modifies str
    ensures stop ==> Run(fmt, p, args, k, Printed(out, count), AsWritten) == Some(Printed(out', count'))
    ensures !stop ==> p < p' <= |fmt|
    ensures !stop ==>
      Run(fmt, p, args, k, Printed(out, count), AsWritten) == Run(fmt, p', args, k', Printed(out', count'), AsWritten)
  {
    StepDefined(fmt, p, args, k, Printed(out, count), AsWritten);
    var s := StepOnce(fmt, p, args, k, str);
    RunStep(fmt, p, args, k, out, count, AsWritten, s);
    return s.next, s.nextArg, out + s.printed.out, count + s.printed.count, s.stop;
  }

  /** Run unfolded by one step whose outcome is known. */
  lemma RunStep(fmt: seq<char>, p: nat, args: seq<Arg>, k: nat, out: seq<char>, count: int, v: Variant, s: Piece)
    requires At(fmt, p) != NUL && Step(fmt, p, args, k, v) == Some(s)
    ensures s.stop ==> Run(fmt, p, args, k, Printed(out, count), v) == Some(Printed(out + s.printed.out, count + s.printed.count))
    ensures !s.stop ==> p < s.next <= |fmt|
    ensures !s.stop ==>
      Run(fmt, p, args, k, Printed(out, count), v) ==
      Run(fmt, s.next, args, s.nextArg, Printed(out + s.printed.out, count + s.printed.count), v)
  {
    var acc' := Printed(out + s.printed.out, count + s.printed.count);
    var r := Run(fmt, p, args, k, Printed(out, count), v);
    assert r == if s.stop then Some(acc') else Run(fmt, s.next, args, s.nextArg, acc', v);
  }

  /** A walk that succeeds takes each of its steps. */
  lemma StepDefined(fmt: seq<char>, p: nat, args: seq<Arg>, k: nat, acc: Printed, v: Variant)
    requires At(fmt, p) != NUL && Run(fmt, p, args, k, acc, v).Some?
    ensures Step(fmt, p, args, k, v).Some?
  {
  }

  // ---------------------------------------------------------------- properties of the formatter

  /**
   * Where the sign, the padding and the text go: after '-' the field is
   * sign, text, padding; otherwise zero padding follows the sign and space
   * padding precedes it, and the text comes last. The text is the string
   * cut to the precision.
   */
  lemma FieldLayout(str: seq<char>, sign: bool, d: Directive, v: Variant)
    requires d.fill == '0' || d.fill == ' '
    ensures var len := Shown(str, d.fmax, v);
      var body := str[..if len < 0 then 0 else len];
      var pad := Rep(d.fill, Leading(len, d.fmin, sign));
      var minus := if sign then "-" else [];
      Field(str, sign, d, v).out ==
        if d.ljust then minus + body + pad
        else if d.fill == '0' then minus + pad + body
        else pad + minus + body
  {
  }

  /**
   * With a precision that is not negative, the text shown is the string cut
   * to the precision, the field is padded to the width (when the text and
   * sign are shorter) and the count is the number of characters emitted.
   */
  lemma FieldWidth(str: seq<char>, sign: bool, d: Directive, v: Variant)
    requires d.fmax >= 0 || v == Intended
    ensures var len := Shown(str, d.fmax, v);
      var f := Field(str, sign, d, v);
      0 <= len <= CStrLen(str) && (d.fmax >= 0 ==> len <= d.fmax) &&
      (len < CStrLen(str) ==> len == d.fmax) &&
      |f.out| == f.count &&
      |f.out| == (if len < d.fmin then d.fmin else len + (if sign then 1 else 0))
  {
  }

  /**
   * As written, the count of a field falls short of the characters emitted
   * by exactly the (negative) number of characters a negative precision asks
   * for; it is never more than what was emitted.
   */
  lemma FieldCountAsWritten(str: seq<char>, sign: bool, d: Directive)
    ensures var len := Shown(str, d.fmax, AsWritten);
      var f := Field(str, sign, d, AsWritten);
      f.count == |f.out| + (if len < 0 then len else 0) &&
      (len < 0 <==> d.fmax < 0)
  {
  }

  /** The count of a piece of the walk, against the characters it emits. */
  lemma StepCount(fmt: seq<char>, p: nat, args: seq<Arg>, k: nat, v: Variant)
    requires At(fmt, p) != NUL && Step(fmt, p, args, k, v).Some?
    ensures var s := Step(fmt, p, args, k, v).value.printed;
      s.count <= |s.out| && (v == Intended ==> s.count == |s.out|)
  {
    if At(fmt, p) == '%' && At(fmt, p + 1) != '%' {
      var d := ParseDirective(fmt, p + 1, args, k).value;
      if d.conv != NUL {
        var t := Convert(d, args, v).value;
        FieldCountAsWritten(t.str, t.sign, d);
        if v == Intended {
          FieldWidth(t.str, t.sign, d, v);
        }
      }
    }
  }

  /** One step of the walk: the directive or character at p, and what the walk goes on with. */
  lemma RunNext(fmt: seq<char>, p: nat, args: seq<Arg>, k: nat, acc: Printed, v: Variant)
    returns (q: nat, k': nat, acc': Printed, stop: bool)
    requires At(fmt, p) != NUL && Run(fmt, p, args, k, acc, v).Some?
    ensures acc'.count - |acc'.out| <= acc.count - |acc.out|
    ensures v == Intended ==> acc'.count - |acc'.out| == acc.count - |acc.out|
    ensures stop ==> Run(fmt, p, args, k, acc, v) == Some(acc')
    ensures !stop ==> p < q && Run(fmt, p, args, k, acc, v) == Run(fmt, q, args, k', acc', v)
  {
    var s := Step(fmt, p, args, k, v).value;
    StepCount(fmt, p, args, k, v);
    q, k', stop := s.next, s.nextArg, s.stop;
    acc' := Printed(acc.out + s.printed.out, acc.count + s.printed.count);
  }

  /** The rest of the walk keeps the difference between count and output, or (as written) lowers it. */
  lemma {:induction false} RunCount(fmt: seq<char>, p: nat, args: seq<Arg>, k: nat, acc: Printed, v: Variant)
    requires Run(fmt, p, args, k, acc, v).Some?
    ensures var r := Run(fmt, p, args, k, acc, v).value;
      r.count - |r.out| <= acc.count - |acc.out| &&
      (v == Intended ==> r.count - |r.out| == acc.count - |acc.out|)
    decreases |fmt| - p
  {
    if At(fmt, p) != NUL {
      var q, k', acc', stop := RunNext(fmt, p, args, k, acc, v);
      if !stop {
        RunCount(fmt, q, args, k', acc', v);
      }
    }
  }

  /** As written, m_printf never returns more than the number of characters it wrote. */
  lemma FormatCountAsWritten(fmt: seq<char>, args: seq<Arg>)
    requires Format(fmt, args, AsWritten).Some?
    ensures Format(fmt, args, AsWritten).value.count <= |Format(fmt, args, AsWritten).value.out|
  {
    RunCount(fmt, 0, args, 0, Printed([], 0), AsWritten);
  }

  /** With negative precisions read as absent, m_printf returns exactly the number of characters written. */
  lemma FormatCountIntended(fmt: seq<char>, args: seq<Arg>)
    requires Format(fmt, args, Intended).Some?
    ensures Format(fmt, args, Intended).value.count == |Format(fmt, args, Intended).value.out|
  {
    RunCount(fmt, 0, args, 0, Printed([], 0), Intended);
  }

  /** Ordinary characters are printed one for one, each counting one. */
  lemma {:induction false} RunPlainPrefix(fmt: seq<char>, p: nat, q: nat, args: seq<Arg>, k: nat, acc: Printed, v: Variant)
    requires p <= q <= |fmt| && forall i :: p <= i < q ==> fmt[i] != '%' && fmt[i] != NUL
    ensures Run(fmt, p, args, k, acc, v) == Run(fmt, q, args, k, Printed(acc.out + fmt[p..q], acc.count + q - p), v)
    decreases q - p
  {
    if p < q {
      var acc' := Printed(acc.out + [fmt[p]], acc.count + 1);
      var last := Printed(acc.out + fmt[p..q], acc.count + q - p);
      assert Printed(acc'.out + fmt[p + 1..q], acc'.count + q - (p + 1)) == last by {
        assert acc'.out + fmt[p + 1..q] == acc.out + fmt[p..q];
      }
      PlainStep(fmt, p, args, k, acc, v);
      RunPlainPrefix(fmt, p + 1, q, args, k, acc', v);
    } else {
      assert Printed(acc.out + fmt[p..q], acc.count + q - p) == acc;
    }
  }

  /** An ordinary character is printed as itself and counts one. */
  lemma PlainStep(fmt: seq<char>, p: nat, args: seq<Arg>, k: nat, acc: Printed, v: Variant)
    requires p < |fmt| && fmt[p] != '%' && fmt[p] != NUL
    ensures Run(fmt, p, args, k, acc, v) == Run(fmt, p + 1, args, k, Printed(acc.out + [fmt[p]], acc.count + 1), v)
  {
    var s := Piece(Printed([fmt[p]], 1), p + 1, k, false);
    assert Step(fmt, p, args, k, v) == Some(s);
    RunStep(fmt, p, args, k, acc.out, acc.count, v, s);
  }

  /** "%%" prints one '%' and counts one. */
  lemma DoublePercent(text: seq<char>, args: seq<Arg>, v: Variant)
    requires '%' !in text && NUL !in text
    ensures Format(text + "%%", args, v) == Some(Printed(text + "%", |text| + 1))
  {
    var fmt := text + "%%";
    var n := |text|;
    RunPlainPrefix(fmt, 0, n, args, 0, Printed([], 0), v);
    var acc := Printed(text, n);
    assert Printed([] + fmt[0..n], 0 + n - 0) == acc;
    var s := Piece(Printed("%", 1), n + 2, 0, false);
    assert Step(fmt, n, args, 0, v) == Some(s);
    RunStep(fmt, n, args, 0, text, n, v, s);
    assert At(fmt, n + 2) == NUL;
  }

  /** A '%' that ends the format prints '%', counts one and ends the output. */
  lemma TrailingPercent(text: seq<char>, args: seq<Arg>, v: Variant)
    requires '%' !in text && NUL !in text
    ensures Format(text + "%", args, v) == Some(Printed(text + "%", |text| + 1))
  {
    var fmt := text + "%";
    var n := |text|;
    var acc := Printed(text, n);
    assert Format(fmt, args, v) == Run(fmt, n, args, 0, acc, v) by {
      RunPlainPrefix(fmt, 0, n, args, 0, Printed([], 0), v);
      assert Printed([] + fmt[0..n], 0 + n - 0) == acc;
    }
    var s := Piece(Printed("%", 1), n + 2, 0, true);
    assert Step(fmt, n, args, 0, v) == Some(s) by {
      assert DigitRun(fmt, n + 1) == 0;
      assert ParseDirective(fmt, n + 1, args, 0) == Some(Directive(false, ' ', 0, 255, false, NUL, n + 2, 0));
    }
    RunStep(fmt, n, args, 0, text, n, v, s);
  }

  /** A conversion character the formatter does not know prints "***" and uses no argument. */
  lemma UnknownConversion(c: char, args: seq<Arg>, v: Variant)
    requires c != NUL && !IsDigit(c)
    requires c !in "%-*.lcsduxX"
    ensures Format(['%', c], args, v) == Some(Printed("***", 3))
  {
    var fmt := ['%', c];
    assert DigitRun(fmt, 1) == 0;
    var d := Directive(false, ' ', 0, 255, false, c, 2, 0);
    assert ParseDirective(fmt, 1, args, 0) == Some(d);
    var t := Text("***", false, 0);
    assert Convert(d, args, v) == Some(t);
    OneConversion(fmt, args, v, d, t);
    assert CStrLen("***") == 3;
    assert Shown("***", 255, v) == 3;
    assert Leading(3, 0, false) == 0;
    assert Rep(' ', 0) == [];
    assert "***"[..3] == "***";
    assert [] + [] + [] + "***" + [] == "***";
    assert Field("***", false, d, v) == Printed("***", 3);
  }

  /** m_printf of text without '%' prints the text and returns its length; no argument is used. */
  lemma FormatPlain(fmt: seq<char>, args: seq<Arg>, v: Variant)
    requires '%' !in CString(fmt)
    ensures Format(fmt, args, v) == Some(Printed(CString(fmt), |CString(fmt)|))
  {
    forall i | 0 <= i < CStrLen(fmt)
      ensures fmt[i] != '%'
    {
      assert CString(fmt)[i] == fmt[i];
    }
    var n := CStrLen(fmt);
    RunPlainPrefix(fmt, 0, n, args, 0, Printed([], 0), v);
    assert Printed([] + fmt[0..n], 0 + n - 0) == Printed(CString(fmt), n);
  }

  // ---------------------------------------------------------------- integer conversions

  /** Reading the low 32 bits as int and taking them modulo 2^32 gives the low 32 bits back. */
  lemma Int32Low(bits: int)
    ensures Int32(bits) % UINT_RANGE == bits % UINT_RANGE
    ensures Int32(bits) < 0 ==> Int32(bits) % ADDR_LIMIT == bits % UINT_RANGE + (ADDR_LIMIT - UINT_RANGE)
  {
  }

  /** Reading 64 bits as long and taking them modulo 2^64 gives the bits back. */
  lemma Int64Low(bits: int)
    ensures Int64(bits) % ADDR_LIMIT == bits % ADDR_LIMIT
  {
  }

  /**
   * The intended conversions: %d prints the sign and the magnitude of the
   * argument, %u, %x and %X its bits as an unsigned int (unsigned long with
   * 'l'); the text reads back as that value.
   */
  lemma IntendedNumbers(conv: char, long: bool, bits: int)
    requires conv == 'd' || conv == 'u' || conv == 'x' || conv == 'X'
    ensures var n := if long then Int64(bits) else Int32(bits);
      var u := if conv == 'd' then (if n < 0 then -n else n)
               else bits % (if long then ADDR_LIMIT else UINT_RANGE);
      var t := NumberText(conv, long, n, Intended);
      t.sign == (conv == 'd' && n < 0) &&
      (conv == 'd' || conv == 'u' ==> DigitsAt(t.str, 0, |t.str|) && DecimalValueAt(t.str, 0, |t.str|) == u) &&
      (conv == 'x' || conv == 'X' ==> GetHex(t.str, 0, 16) == HexParse(u, Some(|t.str|)))
  {
    var n := if long then Int64(bits) else Int32(bits);
    Int32Low(bits);
    Int64Low(bits);
    var u := IntendedValue(conv, long, n);
    if conv == 'd' || conv == 'u' {
      DecimalReadsBack(u);
    } else {
      CaseLetters();
      HexGetHexRoundTrip(u, if conv == 'x' then "abcdef" else "ABCDEF");
    }
  }

  /** A value that fits an int reads back as itself. */
  lemma Int32Fits(x: int)
    requires INT_MIN <= x < -INT_MIN
    ensures Int32(x) == x
  {
  }

  /** A value that fits a long reads back as itself. */
  lemma Int64Fits(x: int)
    requires -ADDR_LIMIT / 2 <= x < ADDR_LIMIT / 2
    ensures Int64(x) == x
  {
  }

  /** As written, every conversion with 'l' is the intended one. */
  lemma LongConversionsExact(conv: char, bits: int)
    ensures NumberText(conv, true, Int64(bits), AsWritten) == NumberText(conv, true, Int64(bits), Intended)
  {
    var n := Int64(bits);
    if conv == 'd' && n < 0 {
      if n == -ADDR_LIMIT / 2 {
        assert Int64(-n) == n;
      } else {
        Int64Fits(-n);
      }
    }
  }

  /** As written, %d of an int is the intended one except for the most negative int. */
  lemma IntSignedExact(bits: int)
    requires Int32(bits) != INT_MIN
    ensures NumberText('d', false, Int32(bits), AsWritten) == NumberText('d', false, Int32(bits), Intended)
  {
    var n := Int32(bits);
    if n < 0 {
      Int64Fits(-n);
      Int32Fits(-n);
    } else {
      Int32Fits(n);
    }
  }

  /** As written, %u, %x and %X of an int convert it sign-extended to 64 bits, as if it were a long. */
  lemma IntUnsignedAsLong(conv: char, bits: int)
    requires conv == 'u' || conv == 'x' || conv == 'X'
    ensures NumberText(conv, false, Int32(bits), AsWritten) == NumberText(conv, true, Int32(bits), Intended)
  {
    Int32Fits(Int32(bits));
  }

  /** ... which is the intended text exactly when the int is not negative. */
  lemma IntUnsignedWidens(conv: char, bits: int)
    requires conv == 'u' || conv == 'x' || conv == 'X'
    ensures NumberText(conv, false, Int32(bits), AsWritten) == NumberText(conv, false, Int32(bits), Intended)
        <==> Int32(bits) >= 0
  {
    var n := Int32(bits);
    Int32Fits(n);
    IntUnsignedAsLong(conv, bits);
    var wide := n % ADDR_LIMIT;
    var narrow := n % UINT_RANGE;
    assert NumberText(conv, true, n, Intended) == Text(NumberDigits(conv, wide), false, 0);
    assert NumberText(conv, false, n, Intended) == Text(NumberDigits(conv, narrow), false, 0);
    if n < 0 {
      assert wide == n + ADDR_LIMIT && narrow == n + UINT_RANGE;
      DigitsInjective(conv, wide, narrow);
    } else {
      assert wide == n && narrow == n;
    }
  }

  /** Different values print differently. */
  lemma DigitsInjective(conv: char, a: nat, b: nat)
    requires a != b
    ensures NumberDigits(conv, a) != NumberDigits(conv, b)
  {
    if conv == 'd' || conv == 'u' {
      DecimalReadsBack(a);
      DecimalReadsBack(b);
    } else {
      var letters := if conv == 'x' then "abcdef" else "ABCDEF";
      CaseLetters();
      HexReadsBack(a, letters);
      HexReadsBack(b, letters);
    }
  }

  // ---------------------------------------------------------------- findings

  /** A format that is one conversion prints that conversion's field. */
  lemma OneConversion(fmt: seq<char>, args: seq<Arg>, v: Variant, d: Directive, t: Text)
    requires |fmt| >= 2 && fmt[0] == '%' && fmt[1] != '%'
    requires ParseDirective(fmt, 1, args, 0) == Some(d) && d.conv != NUL && d.next == |fmt|
    requires Convert(d, args, v) == Some(t)
    ensures Format(fmt, args, v) == Some(Field(t.str, t.sign, d, v))
  {
    var f := Field(t.str, t.sign, d, v);
    assert Step(fmt, 0, args, 0, v) == Some(Piece(f, d.next, t.nextArg, false));
    var acc := Printed([] + f.out, 0 + f.count);
    assert acc == f;
    assert Run(fmt, |fmt|, args, t.nextArg, acc, v) == Some(f);
  }

  /** A value with exactly n hexadecimal digits: 16^(n-1) <= v < 16^n. */
  lemma {:induction false} HexLengthExact(v: nat, n: nat, letters: seq<char>)
    requires |letters| == 6 && n >= 1 && Pow(16, n - 1) <= v < Pow(16, n)
    ensures |Hex(v, letters)| == n
  {
    if n > 1 {
      HexLengthExact(v / 16, n - 1, letters);
    }
  }

  /** The powers of 16 that bound 0x80000000 and its sign extension. */
  lemma Pow16Bounds()
    ensures Pow(16, 7) == 0x1000_0000 && Pow(16, 8) == 0x1_0000_0000
    ensures Pow(16, 15) == 0x1000_0000_0000_0000 && Pow(16, 16) == ADDR_LIMIT
  {
    Pow16Is2To64();
    assert Pow(16, 4) == 0x1_0000;
    assert Pow(16, 8) == 0x1_0000_0000 by {
      assert Pow(16, 5) == 0x10_0000;
      assert Pow(16, 6) == 0x100_0000;
      assert Pow(16, 7) == 0x1000_0000;
    }
    assert Pow(16, 12) == 0x1_0000_0000_0000 by {
      assert Pow(16, 9) == 0x10_0000_0000;
      assert Pow(16, 10) == 0x100_0000_0000;
      assert Pow(16, 11) == 0x1000_0000_0000;
    }
    assert Pow(16, 13) == 0x10_0000_0000_0000;
    assert Pow(16, 14) == 0x100_0000_0000_0000;
  }

  /** "%08x": zero fill, width 8, no precision, conversion 'x'. */
  lemma ParseZeroEightX(args: seq<Arg>)
    ensures ParseDirective("%08x", 1, args, 0) == Some(Directive(false, '0', 8, 255, false, 'x', 4, 0))
  {
    var fmt := "%08x";
    assert DigitRun(fmt, 3) == 0;
    assert DigitRun(fmt, 2) == 1;
    assert DecimalValueAt(fmt, 2, 1) == 8;
    assert Width(fmt, 2, args, 0) == Some(Read(8, 3, 0));
  }

  /** An int that is negative, or an unsigned int at or above 2^31, as a 64-bit value and as 32 bits. */
  lemma HighIntValues(bits: int)
    requires Int32(bits) < 0
    ensures Int32(bits) % ADDR_LIMIT == bits % UINT_RANGE + 0xffff_ffff_0000_0000
    ensures 0x8000_0000 <= bits % UINT_RANGE < UINT_RANGE
  {
  }

  /** The field "%08x" makes of digits that already fill its width is the digits themselves. */
  lemma WideFieldUnpadded(str: seq<char>, v: Variant)
    requires 8 <= |str| <= 255 && NUL !in str
    ensures Field(str, false, Directive(false, '0', 8, 255, false, 'x', 4, 0), v) == Printed(str, |str|)
  {
    CStrLenAll(str);
  }

  /** A string without NUL is a C string of its full length. */
  lemma {:induction false} CStrLenAll(s: seq<char>)
    requires NUL !in s
    ensures CStrLen(s) == |s|
  {
    if s != [] {
      CStrLenAll(s[1..]);
    }
  }

  /**
   * As written, "%08x" of an unsigned int at or above 0x80000000 (or of a
   * negative int) prints sixteen digits: those of the value sign-extended to
   * 64 bits.
   */
  lemma HighIntHexAsWritten(bits: int)
    requires Int32(bits) < 0
    ensures var r := Format("%08x", [Num(bits)], AsWritten);
      r.Some? && |r.value.out| == r.value.count == 16 &&
      GetHex(r.value.out, 0, 16).value == bits % UINT_RANGE + 0xffff_ffff_0000_0000
  {
    var args := [Num(bits)];
    var d := Directive(false, '0', 8, 255, false, 'x', 4, 0);
    ParseZeroEightX(args);
    var n := Int32(bits);
    IntUnsignedAsLong('x', bits);
    var t := NumberText('x', true, n, Intended);
    assert Convert(d, args, AsWritten) == Some(t.(nextArg := 1));
    HighIntValues(bits);
    IntendedNumbers('x', true, n);
    Pow16Bounds();
    HexLengthExact(n % ADDR_LIMIT, 16, "abcdef");
    HexDigitsNoNul(t.str);
    OneConversion("%08x", args, AsWritten, d, t.(nextArg := 1));
    WideFieldUnpadded(t.str, AsWritten);
  }

  /**
   * As intended, "%08x" of an unsigned int at or above 0x80000000 prints its
   * eight digits.
   */
  lemma HighIntHexIntended(bits: int)
    requires Int32(bits) < 0
    ensures var r := Format("%08x", [Num(bits)], Intended);
      r.Some? && |r.value.out| == r.value.count == 8 &&
      GetHex(r.value.out, 0, 16).value == bits % UINT_RANGE
  {
    var args := [Num(bits)];
    var d := Directive(false, '0', 8, 255, false, 'x', 4, 0);
    ParseZeroEightX(args);
    var n := Int32(bits);
    var t := NumberText('x', false, n, Intended);
    assert Convert(d, args, Intended) == Some(t.(nextArg := 1));
    HighIntValues(bits);
    IntendedNumbers('x', false, bits);
    Int32Low(bits);
    Pow16Bounds();
    HexLengthExact(n % UINT_RANGE, 8, "abcdef");
    HexDigitsNoNul(t.str);
    OneConversion("%08x", args, Intended, d, t.(nextArg := 1));
    WideFieldUnpadded(t.str, Intended);
  }

  /** Hexadecimal digits are never the terminator. */
  lemma HexDigitsNoNul(s: seq<char>)
    requires HexDigitsAt(s, 0, |s|)
    ensures NUL !in s
  {
    forall i | 0 <= i < |s|
      ensures s[i] != NUL
    {
      assert IsXDigit(At(s, i));
    }
  }

  /** "%d": no flags, no width, no precision. */
  lemma ParsePlainD(args: seq<Arg>)
    ensures ParseDirective("%d", 1, args, 0) == Some(Directive(false, ' ', 0, 255, false, 'd', 2, 0))
  {
    var fmt := "%d";
    assert DigitRun(fmt, 1) == 0;
    assert Width(fmt, 1, args, 0) == Some(Read(0, 1, 0));
  }

  /** A negative number under "%d" is its minus sign followed by its digits. */
  lemma SignedFieldUnpadded(str: seq<char>, v: Variant)
    requires |str| <= 255 && NUL !in str
    ensures Field(str, true, Directive(false, ' ', 0, 255, false, 'd', 2, 0), v) == Printed("-" + str, |str| + 1)
  {
    CStrLenAll(str);
  }

  /** Decimal digits are never the terminator. */
  lemma DecimalDigitsNoNul(s: seq<char>)
    requires DigitsAt(s, 0, |s|)
    ensures NUL !in s
  {
    forall i | 0 <= i < |s|
      ensures s[i] != NUL
    {
      assert IsDigit(At(s, i));
    }
  }

  /**
   * As written, "%d" of the most negative int prints a minus sign and the
   * digits of 2^64 - 2^31: the negated value no longer fits an int and is
   * sign-extended again.
   */
  lemma MinIntAsWritten(bits: int)
    requires Int32(bits) == INT_MIN
    ensures var r := Format("%d", [Num(bits)], AsWritten);
      r.Some? && |r.value.out| == r.value.count && r.value.out[0] == '-' &&
      DigitsAt(r.value.out[1..], 0, |r.value.out| - 1) &&
      DecimalValueAt(r.value.out[1..], 0, |r.value.out| - 1) == ADDR_LIMIT - 0x8000_0000
  {
    var args := [Num(bits)];
    var d := Directive(false, ' ', 0, 255, false, 'd', 2, 0);
    ParsePlainD(args);
    var u := ADDR_LIMIT - 0x8000_0000;
    assert Int64(0x8000_0000) == 0x8000_0000;
    assert Int32(0x8000_0000) == INT_MIN;
    assert NumberText('d', false, INT_MIN, AsWritten) == Text(Decimal(u), true, 0);
    var t := Text(Decimal(u), true, 1);
    assert Convert(d, args, AsWritten) == Some(t);
    DecimalReadsBack(u);
    DecimalFits(u);
    DecimalDigitsNoNul(t.str);
    OneConversion("%d", args, AsWritten, d, t);
    SignedFieldUnpadded(t.str, AsWritten);
    assert ("-" + t.str)[1..] == t.str;
  }

  /** As intended, "%d" of the most negative int prints a minus sign and the digits of 2^31. */
  lemma MinIntIntended(bits: int)
    requires Int32(bits) == INT_MIN
    ensures var r := Format("%d", [Num(bits)], Intended);
      r.Some? && |r.value.out| == r.value.count && r.value.out[0] == '-' &&
      DigitsAt(r.value.out[1..], 0, |r.value.out| - 1) &&
      DecimalValueAt(r.value.out[1..], 0, |r.value.out| - 1) == 0x8000_0000
  {
    var args := [Num(bits)];
    var d := Directive(false, ' ', 0, 255, false, 'd', 2, 0);
    ParsePlainD(args);
    var u := 0x8000_0000;
    assert NumberText('d', false, INT_MIN, Intended) == Text(Decimal(u), true, 0);
    var t := Text(Decimal(u), true, 1);
    assert Convert(d, args, Intended) == Some(t);
    DecimalReadsBack(u);
    DecimalFits(u);
    DecimalDigitsNoNul(t.str);
    OneConversion("%d", args, Intended, d, t);
    SignedFieldUnpadded(t.str, Intended);
    assert ("-" + t.str)[1..] == t.str;
  }

  /** "%.*s": the precision is taken from an int argument, then a string. */
  lemma ParseStarPrecision(args: seq<Arg>)
    requires |args| >= 1 && args[0].Num?
    ensures ParseDirective("%.*s", 1, args, 0) ==
      Some(Directive(false, ' ', 0, Int32(args[0].bits), false, 's', 4, 1))
  {
    var fmt := "%.*s";
    assert DigitRun(fmt, 1) == 0;
    assert Width(fmt, 1, args, 0) == Some(Read(0, 1, 0));
    assert Precision(fmt, 1, args, 0) == Some(Read(Int32(args[0].bits), 3, 1));
  }

  /**
   * As written, "%.*s" with a negative precision -n prints n spaces, none
   * of the string, and counts nothing for them.
   */
  lemma NegativePrecisionAsWritten(m: int, str: seq<char>)
    requires Int32(m) < 0
    ensures Format("%.*s", [Num(m), Str(str)], AsWritten) == Some(Printed(Rep(' ', -Int32(m)), 0))
  {
    var args := [Num(m), Str(str)];
    var d := Directive(false, ' ', 0, Int32(m), false, 's', 4, 1);
    ParseStarPrecision(args);
    var t := Text(str, false, 2);
    assert Convert(d, args, AsWritten) == Some(t);
    OneConversion("%.*s", args, AsWritten, d, t);
    var p := Int32(m);
    assert Shown(str, p, AsWritten) == p;
    assert Leading(p, 0, false) == -p;
    assert Field(str, false, d, AsWritten) == Printed([] + Rep(' ', -p) + [] + str[..0] + [], 0);
    assert [] + Rep(' ', -p) + [] + str[..0] + [] == Rep(' ', -p);
  }

  /** As intended (a negative precision is no precision), "%.*s" prints the whole string and counts it. */
  lemma NegativePrecisionIntended(m: int, str: seq<char>)
    requires Int32(m) < 0
    ensures Format("%.*s", [Num(m), Str(str)], Intended) == Some(Printed(CString(str), |CString(str)|))
  {
    var args := [Num(m), Str(str)];
    var d := Directive(false, ' ', 0, Int32(m), false, 's', 4, 1);
    ParseStarPrecision(args);
    var t := Text(str, false, 2);
    assert Convert(d, args, Intended) == Some(t);
    OneConversion("%.*s", args, Intended, d, t);
    var n := CStrLen(str);
    assert Shown(str, Int32(m), Intended) == n;
    assert Leading(n, 0, false) == 0;
    assert Field(str, false, d, Intended) == Printed([] + Rep(' ', 0) + [] + str[..n] + [], n);
    assert [] + Rep(' ', 0) + [] + str[..n] + [] == CString(str);
  }
}
