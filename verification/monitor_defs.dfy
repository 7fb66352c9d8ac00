/**
 * Definitions shared by the whole monitor (h/monitor.h): the address and
 * byte types of the 64-bit board, the ASCII control codes, the S-record
 * result codes, the character classifiers, the two cursor primitives
 * m_strlen and m_skipspaces, and the hexadecimal reader gethex.
 *
 * A C string is a `seq<char>` read through `At`: every position at or beyond
 * the end of the sequence reads as NUL, the terminator.
 */
module MonitorDefs {

  datatype Option<T> = None | Some(value: T)

  // memaddr_t and maxword_t are 64-bit unsigned on the default board.
  const ADDR_LIMIT: int := 0x1_0000_0000_0000_0000
  type Addr = a: int | 0 <= a < ADDR_LIMIT
  type Byte = b: int | 0 <= b < 256
  /** The access sizes of the peek/poke family, in bytes. */
  type Width = w: int | w == 1 || w == 2 || w == 4 || w == 8 witness 1

  const MAXLINE: nat := 1024

  const NUL: char := 0 as char
  const BEL: char := 0x07 as char
  const BS: char := 0x08 as char
  const HT: char := 0x09 as char
  const LF: char := 0x0a as char
  const VT: char := 0x0b as char
  const FF: char := 0x0c as char
  const CR: char := 0x0d as char
  const SPACE: char := 0x20 as char
  const DEL: char := 0x7f as char

  // Results of process_s_record.
  const SREC_OK: int := 0
  const SREC_EOF: int := 1
  const SREC_BADTYP: int := -1
  const SREC_BADLEN: int := -2
  const SREC_NONHEX: int := -3
  const SREC_BADCK: int := -4

  lemma ResultCodesDistinct()
    ensures SREC_OK == 0 && SREC_EOF == 1
    ensures SREC_BADTYP < 0 && SREC_BADLEN < 0 && SREC_NONHEX < 0 && SREC_BADCK < 0
    ensures |{SREC_OK, SREC_EOF, SREC_BADTYP, SREC_BADLEN, SREC_NONHEX, SREC_BADCK}| == 6
  {
  }

  function Pow(b: nat, n: nat): (r: nat)
    ensures b > 0 ==> r > 0
  {
    if n == 0 then 1 else b * Pow(b, n - 1)
  }

  lemma {:induction false} PowMonotone(b: nat, m: nat, n: nat)
    requires b > 0 && m <= n
    ensures Pow(b, m) <= Pow(b, n)
  {
    if m < n {
      PowMonotone(b, m, n - 1);
    }
  }

  lemma Pow16Is2To64()
    ensures Pow(16, 16) == ADDR_LIMIT
  {
    assert Pow(16, 4) == 0x1_0000;
    assert Pow(16, 8) == 0x1_0000_0000 by {
      assert Pow(16, 5) == 0x10_0000;
      assert Pow(16, 6) == 0x100_0000;
      assert Pow(16, 7) == 0x1000_0000;
    }
    assert Pow(16, 12) == 0x1_0000_0000_0000 by {
      assert Pow(16, 9) == 0x10_0000_0000;
      assert Pow(16, 10) == 0x100_0000_0000;
      assert Pow(16, 11) == 0x1000_0000_0000;
    }
    assert Pow(16, 13) == 0x10_0000_0000_0000;
    assert Pow(16, 14) == 0x100_0000_0000_0000;
    assert Pow(16, 15) == 0x1000_0000_0000_0000;
  }

  /** Two hexadecimal digits per byte. */
  lemma {:induction false} Pow16Twice(m: nat)
    ensures Pow(16, 2 * m) == Pow(256, m)
  {
    if m > 0 {
      Pow16Twice(m - 1);
      assert Pow(16, 2 * m) == 16 * (16 * Pow(16, 2 * (m - 1)));
    }
  }

  lemma DivModUnique(v: nat, d: nat, q: nat, r: nat)
    requires d > 0 && r < d && v == d * q + r
    ensures v / d == q && v % d == r
  {
    var q', r' := v / d, v % d;
    assert v == d * q' + r';
    if q' < q {
      assert d * q >= d * (q' + 1) by { MulMonotone(d, q' + 1, q); }
    } else if q < q' {
      assert d * q' >= d * (q + 1) by { MulMonotone(d, q + 1, q'); }
    }
  }

  lemma MulMonotone(d: nat, x: nat, y: nat)
    requires x <= y
    ensures d * x <= d * y
  {
  }

  /** Splitting off the lowest byte of a remainder modulo 256 * P. */
  lemma ModSplit(v: nat, p: nat)
    requires p > 0
    ensures v % (256 * p) == v % 256 + 256 * ((v / 256) % p)
  {
    var q, r := v / 256, v % 256;
    var q2, r2 := q / p, q % p;
    assert v == 256 * q + r;
    assert q == p * q2 + r2;
    assert v == (256 * p) * q2 + (256 * r2 + r) by {
      assert 256 * q == 256 * (p * q2) + 256 * r2;
    }
    assert 256 * r2 + r < 256 * p by { MulMonotone(256, r2, p - 1); }
    DivModUnique(v, 256 * p, q2, 256 * r2 + r);
  }

  /** Concatenation is associative (stated apart, where no other definition is in sight). */
  lemma AppendAssoc<T>(x: seq<T>, y: seq<T>, z: seq<T>)
    ensures x + (y + z) == (x + y) + z
  {
  }

  /** The empty sequence is a right unit of concatenation. */
  lemma AppendNil<T>(x: seq<T>)
    ensures x + [] == x
  {
  }

  /** The character at position i of a C string; NUL past the end. */
  function At(s: seq<char>, i: nat): char
  {
    if i < |s| then s[i] else NUL
  }

  // ---------------------------------------------------------------- classifiers

  predicate IsDigit(c: char)
  {
    '0' <= c <= '9'
  }

  predicate IsXDigit(c: char)
  {
    ('0' <= c <= '9') || ('a' <= c <= 'f') || ('A' <= c <= 'F')
  }

  predicate IsSpace(c: char)
  {
    c == ' ' || c == FF || c == LF || c == CR || c == HT || c == VT
  }

  predicate IsPrint(c: char)
  {
    ' ' <= c < DEL
  }

  /** The two digit alphabets prt16 is given ("abcdef" and "ABCDEF" after 0-9). */
  const LowerHexDigits: seq<char> := "0123456789abcdef"
  const UpperHexDigits: seq<char> := "0123456789ABCDEF"

  /**
   * The value of one hexadecimal digit: the job of char2hex, whose body is
   * not part of this model (assumed behaviour).
   */
  function DigitValue(c: char): (d: nat)
    requires IsXDigit(c)
    ensures d < 16
  {
    if c <= '9' then c as int - '0' as int
    else if c <= 'F' then c as int - 'A' as int + 10
    else c as int - 'a' as int + 10
  }

  /** A digit's value is its index in the alphabet of its case. */
  lemma DigitValueIsIndex(c: char)
    requires IsXDigit(c)
    ensures c == LowerHexDigits[DigitValue(c)] || c == UpperHexDigits[DigitValue(c)]
  {
  }

  /** m_isxdigit accepts exactly the characters of the two hex alphabets. */
  lemma XDigitIsHexAlphabet(c: char)
    ensures IsXDigit(c) <==> (c in LowerHexDigits || c in UpperHexDigits)
  {
    if c in LowerHexDigits {
      var k :| 0 <= k < 16 && LowerHexDigits[k] == c;
    } else if c in UpperHexDigits {
      var k :| 0 <= k < 16 && UpperHexDigits[k] == c;
    }
  }

  /** Every digit of both alphabets is read back by DigitValue as its own index. */
  lemma DigitValueOfAlphabet(d: nat)
    requires d < 16
    ensures IsXDigit(LowerHexDigits[d]) && DigitValue(LowerHexDigits[d]) == d
    ensures IsXDigit(UpperHexDigits[d]) && DigitValue(UpperHexDigits[d]) == d
  {
  }

  /** How the classes relate; in particular the terminator belongs to none of them. */
  lemma ClassifierRelations(c: char)
    ensures IsDigit(c) ==> IsXDigit(c) && IsPrint(c)
    ensures IsXDigit(c) ==> IsPrint(c) && !IsSpace(c)
    ensures IsSpace(c) && IsPrint(c) ==> c == ' '
    ensures !IsSpace(NUL) && !IsXDigit(NUL) && !IsPrint(NUL)
    ensures IsPrint(c) <==> 0x20 <= c as int <= 0x7e
  {
  }

  // ---------------------------------------------------------------- m_strlen

  /** The length of a C string: the index of its first NUL. */
  function CStrLen(s: seq<char>): (n: nat)
    ensures n <= |s| && At(s, n) == NUL
    ensures forall k :: 0 <= k < n ==> s[k] != NUL
  {
    if |s| == 0 || s[0] == NUL then 0 else 1 + CStrLen(s[1..])
  }

  /** The characters of a C string, without its terminator. */
  function CString(s: seq<char>): (t: seq<char>)
    ensures NUL !in t && |t| <= |s|
    ensures forall k :: 0 <= k < |t| ==> t[k] == s[k]
  {
    s[..CStrLen(s)]
  }

  /** m_strlen: walks the string up to its terminator. */
  method StrLen(s: seq<char>) returns (len: nat)
    ensures len == CStrLen(s)
  {
    len := 0;
    while At(s, len) != NUL
      invariant len <= CStrLen(s)
      decreases CStrLen(s) - len
    {
      len := len + 1;
    }
  }

  // ---------------------------------------------------------------- m_skipspaces

  /**
   * The first position at or after p that does not hold white space. It never
   * passes the terminator, since NUL is not white space.
   */
  function FirstNonSpace(s: seq<char>, p: nat): (q: nat)
    ensures p <= q && !IsSpace(At(s, q))
    ensures forall k :: p <= k < q ==> IsSpace(At(s, k))
    ensures p <= CStrLen(s) ==> q <= CStrLen(s)
    decreases |s| - p
  {
    if IsSpace(At(s, p)) then FirstNonSpace(s, p + 1) else p
  }

  /** m_skipspaces: advances the cursor over white space. */
  method SkipSpaces(s: seq<char>, p: nat) returns (q: nat)
    ensures q == FirstNonSpace(s, p)
  {
    q := p;
    while IsSpace(At(s, q))
      invariant p <= q && FirstNonSpace(s, q) == FirstNonSpace(s, p)
      decreases |s| - q
    {
      q := q + 1;
    }
  }

  // ---------------------------------------------------------------- gethex (assumed)

  /** Positions p .. p+n-1 all hold hexadecimal digits. */
  predicate HexDigitsAt(s: seq<char>, p: nat, n: nat)
  {
    forall k :: p <= k < p + n ==> IsXDigit(At(s, k))
  }

  /** A run of hex digits splits at any point into two adjacent runs. */
  lemma HexDigitsSplit(s: seq<char>, p: nat, m: nat, n: nat)
    ensures HexDigitsAt(s, p, m + n) <==> HexDigitsAt(s, p, m) && HexDigitsAt(s, p + m, n)
  {
  }

  /** The number of hexadecimal digits at p, counting at most max of them. */
  function HexRun(s: seq<char>, p: nat, max: nat): (n: nat)
    ensures n <= max && HexDigitsAt(s, p, n)
    ensures n < max ==> !IsXDigit(At(s, p + n))
    decreases max
  {
    if max == 0 || !IsXDigit(At(s, p)) then 0 else 1 + HexRun(s, p + 1, max - 1)
  }

  /** The value of the n hexadecimal digits at p, most significant first. */
  function HexValueAt(s: seq<char>, p: nat, n: nat): (v: nat)
    requires HexDigitsAt(s, p, n)
    ensures v < Pow(16, n)
  {
    if n == 0 then 0 else 16 * HexValueAt(s, p, n - 1) + DigitValue(At(s, p + n - 1))
  }

  /** The result of gethex: the value read and the new cursor (None is NULL). */
  datatype HexParse = HexParse(value: nat, next: Option<nat>)

  /**
   * gethex(&p, max), whose body is not part of this model. Assumed contract:
   * it reads up to max hexadecimal digits at p (no sign, no prefix, no
   * skipping of white space) and returns their value with the cursor just
   * past them; when no digit is there it returns 0 and sets the cursor to
   * NULL. All callers pass max <= 16, so the value fits a maxword_t.
   */
  function GetHex(s: seq<char>, p: nat, max: nat): (r: HexParse)
    requires max <= 16
    ensures r.next.None? <==> (max == 0 || !IsXDigit(At(s, p)))
    ensures r.next.None? ==> r.value == 0
    ensures r.next.Some? ==> p < r.next.value <= p + max
    ensures r.next.Some? ==> HexDigitsAt(s, p, r.next.value - p)
    ensures r.next.Some? && r.next.value < p + max ==> !IsXDigit(At(s, r.next.value))
    ensures r.value < Pow(16, max) && r.value < ADDR_LIMIT
  {
    var n := HexRun(s, p, max);
    PowMonotone(16, n, max);
    PowMonotone(16, max, 16);
    Pow16Is2To64();
    HexParse(HexValueAt(s, p, n), if n == 0 then None else Some(p + n))
  }

  /** Two hex digits at p are read as one byte and the cursor moves by two. */
  lemma GetHexPair(s: seq<char>, p: nat)
    requires IsXDigit(At(s, p)) && IsXDigit(At(s, p + 1))
    ensures GetHex(s, p, 2) == HexParse(16 * DigitValue(At(s, p)) + DigitValue(At(s, p + 1)), Some(p + 2))
  {
    assert HexRun(s, p + 1, 1) == 1 + HexRun(s, p + 2, 0);
    assert HexRun(s, p, 2) == 2;
    assert HexValueAt(s, p, 1) == DigitValue(At(s, p));
  }
}
