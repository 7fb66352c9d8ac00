/**
 * The command interpreter of c/monitor.c. Each input line is dispatched on
 * its first non-space character, in either case: S-records are handed to
 * the loader, B/H/W/Q show or set a 1-, 2-, 4- or 8-byte cell, D dumps
 * memory, Z zeroes a range, G starts code, M is not implemented and '?'
 * prints the help text.
 *
 * What the commands print is modelled by an outcome tag per message (the
 * values a message shows are kept, its wording is not). Starting code on a
 * core is modelled as an event in a trace of launches. Every argument is
 * parsed with gethex, whose assumed contract is GetHex in MonitorDefs.
 *
 * The handlers keep their cursor-advancing shape as methods; each is proved
 * against a pure function that says what the line asks for (WordParse,
 * DumpParse, GoParse, ZeroParse), and the properties are lemmas about those.
 */
module Commands {
  import opened MonitorDefs
  import opened MemoryCells
  import opened SRecords
  import SRecordFormat
  import MonStdio

  /** What a command reports, standing for the text it prints. */
  datatype Message =
    | HelpText                                              // help()
    | What                                                  // "What?"
    | How                                                   // "How?"
    | Sorry                                                 // "Sorry :-("
    | NotImplemented                                        // mod_op
    | EndOfRecords                                          // "End of S-record file"
    | BadRecord(line: seq<char>)                            // "Bad S-record: ..." with the line
    | CellValue(addr: Addr, width: Width, value: nat)       // word_op showing a cell
    | DumpRow(addr: Addr, cells: seq<nat>, ascii: seq<char>) // one line of dump_op

  /** go(a) on the calling core, or release(c, a) of another core. */
  datatype Launch = Go(addr: Addr) | Release(core: nat, addr: Addr)

  // ---------------------------------------------------------------- dispatch

  /** The handler the switch of monitor() selects. */
  datatype Command =
    | Nothing | SRecord | WordCmd(width: Width) | DumpCmd | ModifyCmd | GoCmd | ZeroCmd | HelpCmd | Unknown

  /** The switch on the first non-space character of the line. */
  function CommandOf(c: char): Command
  {
    if c == NUL then Nothing
    else if c == 's' || c == 'S' then SRecord
    else if c == 'b' || c == 'B' then WordCmd(1)
    else if c == 'h' || c == 'H' then WordCmd(2)
    else if c == 'w' || c == 'W' then WordCmd(4)
    else if c == 'q' || c == 'Q' then WordCmd(8)
    else if c == 'd' || c == 'D' then DumpCmd
    else if c == 'm' || c == 'M' then ModifyCmd
    else if c == 'g' || c == 'G' then GoCmd
    else if c == 'z' || c == 'Z' then ZeroCmd
    else if c == '?' then HelpCmd
    else Unknown
  }

  /** The upper-case form of an ASCII letter; other characters are unchanged. */
  function Upper(c: char): char
  {
    if 'a' <= c <= 'z' then (c as int - 32) as char else c
  }

  /**
   * Commands are not case sensitive, and exactly the listed characters
   * select a handler: every other character is answered with "What?".
   */
  lemma CommandLetters(c: char)
    ensures CommandOf(c) == CommandOf(Upper(c))
    ensures CommandOf(c) == Unknown <==> Upper(c) !in "\0SBHWQDMGZ?"
    ensures CommandOf(c) == Nothing <==> c == NUL
  {
  }

  // ---------------------------------------------------------------- word_op

  /** An address is aligned for a cell of width s. */
  predicate Aligned(a: nat, s: nat)
    requires s > 0
  {
    a % s == 0
  }

  /** A cell aligned to its width ends within the address space. */
  lemma AlignedCellFits(a: Addr, s: Width)
    requires Aligned(a, s)
    ensures a + s <= ADDR_LIMIT
  {
    if s == 8 {
      assert a == 8 * (a / 8);
    } else if s == 4 {
      assert a == 4 * (a / 4);
    } else if s == 2 {
      assert a == 2 * (a / 2);
    }
  }

  /** What a B/H/W/Q line asks for. */
  datatype WordAction = WordHow | WordShow(addr: Addr) | WordSet(addr: Addr, value: nat) | WordSilent

  /**
   * word_op(s, p): an address (up to 16 digits, aligned to s), then either
   * nothing (show the cell), or '=' and a value of up to 2s digits with
   * nothing after it (set the cell). Anything else after the address is
   * ignored without a word.
   */
  function WordParse(line: seq<char>, p: nat, s: Width): (r: WordAction)
    ensures r.WordShow? ==> Aligned(r.addr, s) && r.addr + s <= ADDR_LIMIT
    ensures r.WordSet? ==> Aligned(r.addr, s) && r.addr + s <= ADDR_LIMIT && r.value < Pow(256, s)
  {
    var a := GetHex(line, FirstNonSpace(line, p), 16);
    if a.next.None? || !Aligned(a.value, s) then WordHow
    else
      AlignedCellFits(a.value, s);
      var q := FirstNonSpace(line, a.next.value);
      if At(line, q) == NUL then WordShow(a.value)
      else if At(line, q) == '=' then
        var v := GetHex(line, FirstNonSpace(line, q + 1), 2 * s);
        if v.next.None? || At(line, FirstNonSpace(line, v.next.value)) != NUL then WordHow
        else
          Pow16Twice(s);
          WordSet(a.value, v.value)
      else WordSilent
  }

  // ---------------------------------------------------------------- go_op

  /** What a G line asks for. */
  datatype GoAction = GoHow | GoSorry | GoAll(addr: Addr) | GoCore(addr: Addr, core: nat)

  /**
   * go_op(p): an address, then optionally ',' and one core digit with
   * nothing after it. Without the comma the rest of the line is ignored.
   */
  function GoParse(line: seq<char>, p: nat): (r: GoAction)
    ensures r.GoCore? ==> r.core <= 3
  {
    var a := GetHex(line, FirstNonSpace(line, p), 16);
    if a.next.None? then GoHow
    else if At(line, a.next.value) != ',' then GoAll(a.value)
    else
      var c := GetHex(line, FirstNonSpace(line, a.next.value + 1), 1);
      if c.next.None? || At(line, c.next.value) != NUL then GoHow
      else if c.value > 3 then GoSorry
      else GoCore(a.value, c.value)
  }

  /** The launches go_op performs, in order: the other cores first, then this one. */
  function LaunchesOf(g: GoAction): seq<Launch>
  {
    match g
    case GoAll(a) => [Release(1, a), Release(2, a), Release(3, a), Go(a)]
    case GoCore(a, c) => if c == 0 then [Go(a)] else [Release(c, a)]
    case _ => []
  }

  /** The message go_op prints. */
  function GoMessages(g: GoAction): seq<Message>
  {
    match g
    case GoHow => [How]
    case GoSorry => [Sorry]
    case _ => []
  }

  // ---------------------------------------------------------------- dump_op

  /** What a D line asks for. */
  datatype DumpAction = DumpHow | DumpSorry | DumpRun(addr: Addr, len: int, size: Width)

  /**
   * dump_op(p): an address, then optionally ',' and a length of up to 4
   * digits (16 when missing), then optionally ',' and a size digit (1 when
   * missing), then nothing. The length counts bytes, not cells: each cell
   * shown takes s off it.
   */
  function DumpParse(line: seq<char>, p: nat): (r: DumpAction)
    ensures r.DumpRun? ==> Aligned(r.addr, r.size) && r.len >= 0
  {
    DumpAfterAddr(line, GetHex(line, FirstNonSpace(line, p), 16))
  }

  /** dump_op once gethex has read (or failed to read) the address. */
  function DumpAfterAddr(line: seq<char>, a: HexParse): (r: DumpAction)
    requires a.value < ADDR_LIMIT
    ensures r.DumpRun? ==> Aligned(r.addr, r.size) && r.len >= 0
    ensures a.next.None? ==> r == DumpHow
  {
    if a.next.None? then DumpHow
    else
      var q := FirstNonSpace(line, a.next.value);
      if At(line, q) != ',' then DumpCheck(line, q, a.value, 16, 1)
      else DumpAfterLength(line, a.value, GetHex(line, FirstNonSpace(line, q + 1), 4))
  }

  /** dump_op once gethex has read (or failed to read) the length after the first ','. */
  function DumpAfterLength(line: seq<char>, a: Addr, l: HexParse): (r: DumpAction)
    ensures r.DumpRun? ==> Aligned(r.addr, r.size) && r.len >= 0
    ensures l.next.None? ==> r == DumpHow
  {
    if l.next.None? then DumpHow
    else
      var q := FirstNonSpace(line, l.next.value);
      if At(line, q) != ',' then DumpCheck(line, q, a, l.value, 1)
      else
        var s := GetHex(line, FirstNonSpace(line, q + 1), 1);
        if s.next.None? then DumpHow
        else DumpCheck(line, FirstNonSpace(line, s.next.value), a, l.value, s.value)
  }

  /**
   * The last checks of dump_op: trailing text is answered with "How?", a
   * size other than 1, 2, 4 or 8 or an address not aligned to it with
   * "Sorry :-(".
   */
  function DumpCheck(line: seq<char>, p: nat, a: Addr, l: nat, s: nat): (r: DumpAction)
    ensures r == DumpHow <==> At(line, p) != NUL
    ensures r == DumpSorry <==> At(line, p) == NUL && (s !in {1, 2, 4, 8} || a % s != 0)
    ensures r.DumpRun? ==> r == DumpRun(a, l, s as Width)
  {
    if At(line, p) != NUL then DumpHow
    else if !(s == 1 || s == 2 || s == 4 || s == 8) then DumpSorry
    else if !Aligned(a, s) then DumpSorry
    else DumpRun(a, l, s)
  }

  /** The next cell: a += s on a memaddr_t, which wraps at the top of memory. */
  lemma AlignedStep(a: Addr, s: Width)
    requires Aligned(a, s)
    ensures a + s <= ADDR_LIMIT && Aligned((a + s) % ADDR_LIMIT, s)
  {
    AlignedCellFits(a, s);
    var b := a + s;
    if b == ADDR_LIMIT {
      assert b % ADDR_LIMIT == 0;
    } else {
      assert b % ADDR_LIMIT == b;
      var k := a / s;
      assert a == s * k;
      assert b == s * (k + 1);
    }
  }

  /** How the dump shows a byte in its text column. */
  function Dot(c: nat): char
  {
    if c <= 0x20 || c >= 0x7f then '.' else c as char
  }

  /**
   * The text column of dump_op as written: the bytes from ca up to (not
   * including) the address after the row, so empty when that address
   * wrapped to the bottom of memory.
   */
  function Dots(m: map<Addr, Byte>, ca: Addr, a: Addr): seq<char>
    requires Total(m)
    decreases a - ca
  {
    if ca < a then [Dot(m[ca])] + Dots(m, ca + 1, a) else []
  }

  /** The text column the dump evidently means: one character per byte shown. */
  function AsciiOf(cells: seq<nat>): seq<char>
  {
    if cells == [] then [] else [Dot(cells[0])] + AsciiOf(cells[1..])
  }

  /** Where a row of the dump stopped: its cells, the next address and the length left. */
  datatype RowEnd = RowEnd(cells: seq<nat>, next: Addr, left: int)

  /** The inner loop of dump_op: cells of size s while i > 0 and l > 0. */
  function Row(m: map<Addr, Byte>, a: Addr, s: Width, i: int, l: int): (r: RowEnd)
    requires Total(m) && Aligned(a, s)
    ensures Aligned(r.next, s) && r.left <= l
    ensures i > 0 && l > 0 ==> r.left <= l - s
    decreases i
  {
    if i <= 0 || l <= 0 then RowEnd([], a, l)
    else
      AlignedStep(a, s);
      var r := Row(m, (a + s) % ADDR_LIMIT, s, i - s, l - s);
      RowEnd([Load(m, a, s)] + r.cells, r.next, r.left)
  }

  /** A row whose first cells were already read. */
  function Resumed(cells: seq<nat>, r: RowEnd): RowEnd
  {
    RowEnd(cells + r.cells, r.next, r.left)
  }

  /** One pass of the inner loop of dump_op reads the cell at a and moves on by s. */
  lemma RowStep(m: map<Addr, Byte>, cells: seq<nat>, a: Addr, s: Width, i: int, l: int)
    requires Total(m) && Aligned(a, s) && i > 0 && l > 0
    ensures a + s <= ADDR_LIMIT && Aligned((a + s) % ADDR_LIMIT, s)
    ensures Resumed(cells, Row(m, a, s, i, l)) == Resumed(cells + [Load(m, a, s)], Row(m, (a + s) % ADDR_LIMIT, s, i - s, l - s))
  {
    AlignedStep(a, s);
    var r := Row(m, (a + s) % ADDR_LIMIT, s, i - s, l - s);
    assert Row(m, a, s, i, l) == RowEnd([Load(m, a, s)] + r.cells, r.next, r.left);
    AppendAssoc(cells, [Load(m, a, s)], r.cells);
  }

  /** The text column of a row at a that stopped at next. */
  function RowText(m: map<Addr, Byte>, a: Addr, s: Width, r: RowEnd, v: MonStdio.Variant): seq<char>
    requires Total(m)
  {
    if s != 1 then []
    else if v == MonStdio.AsWritten then Dots(m, a, r.next)
    else AsciiOf(r.cells)
  }

  /** The lines dump_op prints for l bytes' worth of cells of size s from a. */
  function DumpRows(m: map<Addr, Byte>, a: Addr, s: Width, l: int, v: MonStdio.Variant): seq<Message>
    requires Total(m) && Aligned(a, s)
    decreases l
  {
    if l <= 0 then []
    else
      var r := Row(m, a, s, 16, l);
      [DumpRow(a, r.cells, RowText(m, a, s, r, v))] + DumpRows(m, r.next, s, r.left, v)
  }

  /** One pass of the outer loop of dump_op. */
  lemma DumpRowsStep(m: map<Addr, Byte>, a: Addr, s: Width, l: int, v: MonStdio.Variant)
    requires Total(m) && Aligned(a, s) && l > 0
    ensures var r := Row(m, a, s, 16, l);
      DumpRows(m, a, s, l, v) == [DumpRow(a, r.cells, RowText(m, a, s, r, v))] + DumpRows(m, r.next, s, r.left, v)
  {
  }

  /** The cells a dump shows, in order: the cell at a, then the one s bytes on (wrapping). */
  function Cells(m: map<Addr, Byte>, a: Addr, s: Width, l: int): seq<nat>
    requires Total(m) && Aligned(a, s)
    decreases l
  {
    if l <= 0 then []
    else
      AlignedStep(a, s);
      [Load(m, a, s)] + Cells(m, (a + s) % ADDR_LIMIT, s, l - s)
  }

  /** The cells shown on the rows, one row after another. */
  function CellsOf(rows: seq<Message>): seq<nat>
  {
    if rows == [] then []
    else (if rows[0].DumpRow? then rows[0].cells else []) + CellsOf(rows[1..])
  }

  /** Adding to an address already reduced modulo 2^64 wraps the same way. */
  lemma ModAddMod(x: nat, y: nat)
    ensures (x % ADDR_LIMIT + y) % ADDR_LIMIT == (x + y) % ADDR_LIMIT
  {
    var z := x % ADDR_LIMIT + y;
    DivModUnique(x + y, ADDR_LIMIT, x / ADDR_LIMIT + z / ADDR_LIMIT, z % ADDR_LIMIT);
  }

  /** The address of cell j of a dump from a: s bytes on from cell j - 1, wrapping at the top of memory. */
  function CellAddr(a: Addr, s: Width, j: nat): (r: Addr)
    requires Aligned(a, s)
    ensures Aligned(r, s) && r + s <= ADDR_LIMIT
    decreases j
  {
    if j == 0 then AlignedCellFits(a, s); a
    else
      AlignedStep(a, s);
      CellAddr((a + s) % ADDR_LIMIT, s, j - 1)
  }

  /** j cells of size s are one cell more than j - 1 of them. */
  lemma MulPred(j: nat, s: nat)
    requires j > 0
    ensures s + (j - 1) * s == j * s
  {
  }

  /** Cell j of a dump from a lies at a + j*s (mod 2^64). */
  lemma {:induction false} CellAddrIs(a: Addr, s: Width, j: nat)
    requires Aligned(a, s)
    ensures CellAddr(a, s, j) == (a + j * s) % ADDR_LIMIT
    decreases j
  {
    if j > 0 {
      var b := (a + s) % ADDR_LIMIT;
      AlignedStep(a, s);
      CellAddrIs(b, s, j - 1);
      assert (b + (j - 1) * s) % ADDR_LIMIT == (a + j * s) % ADDR_LIMIT by {
        ModAddMod(a + s, (j - 1) * s);
        MulPred(j, s);
      }
    }
  }

  /** Cell j + 1 from a is cell j from the next address. */
  lemma {:induction false} CellAddrNext(a: Addr, s: Width, j: nat)
    requires Aligned(a, s)
    ensures Aligned((a + s) % ADDR_LIMIT, s) && CellAddr((a + s) % ADDR_LIMIT, s, j) == CellAddr(a, s, j + 1)
  {
    AlignedStep(a, s);
  }

  /** Cell j of a dump is the s-byte cell at a + j*s (mod 2^64). */
  lemma {:induction false} CellsAt(m: map<Addr, Byte>, a: Addr, s: Width, l: int, j: nat)
    requires Total(m) && Aligned(a, s) && j < |Cells(m, a, s, l)|
    ensures Cells(m, a, s, l)[j] == Load(m, CellAddr(a, s, j), s)
    decreases j
  {
    AlignedStep(a, s);
    if j > 0 {
      CellsAt(m, (a + s) % ADDR_LIMIT, s, l - s, j - 1);
      CellAddrNext(a, s, j - 1);
    }
  }

  /** A dump of l bytes shows the fewest cells of size s that cover l bytes. */
  lemma {:induction false} CellsCount(m: map<Addr, Byte>, a: Addr, s: Width, l: int)
    requires Total(m) && Aligned(a, s)
    ensures l <= 0 ==> Cells(m, a, s, l) == []
    ensures l > 0 ==> l <= |Cells(m, a, s, l)| * s < l + s
    decreases l
  {
    if l > 0 {
      AlignedStep(a, s);
      var n := |Cells(m, (a + s) % ADDR_LIMIT, s, l - s)|;
      CellsCount(m, (a + s) % ADDR_LIMIT, s, l - s);
      assert (n + 1) * s == n * s + s;
    }
  }

  /** A row holds the next cells of the dump, and stops at the address after them. */
  lemma {:induction false} RowSplit(m: map<Addr, Byte>, a: Addr, s: Width, i: int, l: int)
    requires Total(m) && Aligned(a, s)
    ensures var r := Row(m, a, s, i, l);
      r.cells + Cells(m, r.next, s, r.left) == Cells(m, a, s, l)
    decreases i
  {
    if i > 0 && l > 0 {
      var b := (a + s) % ADDR_LIMIT;
      RowUnfold(m, a, s, i, l);
      RowSplit(m, b, s, i - s, l - s);
      var r := Row(m, b, s, i - s, l - s);
      AppendAssoc([Load(m, a, s)], r.cells, Cells(m, r.next, s, r.left));
    }
  }

  /** One cell of a row and of the dump: the cell at a, then the rest from a + s. */
  lemma RowUnfold(m: map<Addr, Byte>, a: Addr, s: Width, i: int, l: int)
    requires Total(m) && Aligned(a, s) && i > 0 && l > 0
    ensures a + s <= ADDR_LIMIT && Aligned((a + s) % ADDR_LIMIT, s)
    ensures var b := (a + s) % ADDR_LIMIT; var r := Row(m, b, s, i - s, l - s);
      Row(m, a, s, i, l) == RowEnd([Load(m, a, s)] + r.cells, r.next, r.left) &&
      Cells(m, a, s, l) == [Load(m, a, s)] + Cells(m, b, s, l - s)
  {
    AlignedStep(a, s);
  }

  /** A row stops at the address of the cell after its last. */
  lemma {:induction false} RowNext(m: map<Addr, Byte>, a: Addr, s: Width, i: int, l: int)
    requires Total(m) && Aligned(a, s)
    ensures var r := Row(m, a, s, i, l); r.next == CellAddr(a, s, |r.cells|)
    decreases i
  {
    if i > 0 && l > 0 {
      AlignedStep(a, s);
      var r := Row(m, (a + s) % ADDR_LIMIT, s, i - s, l - s);
      RowNext(m, (a + s) % ADDR_LIMIT, s, i - s, l - s);
      CellAddrNext(a, s, |r.cells|);
      assert Row(m, a, s, i, l) == RowEnd([Load(m, a, s)] + r.cells, r.next, r.left);
    }
  }

  /**
   * A row started with room for n cells takes n cells when at least n*s
   * bytes are left, and otherwise takes all that is left.
   */
  lemma {:induction false} RowCount(m: map<Addr, Byte>, a: Addr, s: Width, n: nat, l: int)
    requires Total(m) && Aligned(a, s)
    ensures var r := Row(m, a, s, n * s, l);
      |r.cells| <= n &&
      (l >= n * s ==> |r.cells| == n && r.left == l - n * s) &&
      (l < n * s ==> r.left <= 0)
    decreases n
  {
    if n > 0 && l > 0 {
      AlignedStep(a, s);
      assert n * s - s == (n - 1) * s;
      RowCount(m, (a + s) % ADDR_LIMIT, s, n - 1, l - s);
    }
  }

  /** How many cells of size s fill a 16-byte row. */
  function RowCells(s: Width): (n: nat)
    ensures n * s == 16
  {
    16 / s
  }

  /** The cells on the rows of a dump are the cells of the dump, in order. */
  lemma {:induction false} DumpCells(m: map<Addr, Byte>, a: Addr, s: Width, l: int, v: MonStdio.Variant)
    requires Total(m) && Aligned(a, s)
    ensures CellsOf(DumpRows(m, a, s, l, v)) == Cells(m, a, s, l)
    decreases l
  {
    if l > 0 {
      var r := Row(m, a, s, 16, l);
      var rows := DumpRows(m, a, s, l, v);
      DumpRowsStep(m, a, s, l, v);
      DumpCells(m, r.next, s, r.left, v);
      RowSplit(m, a, s, 16, l);
      assert rows[1..] == DumpRows(m, r.next, s, r.left, v);
    }
  }

  /**
   * A dump of l > 0 bytes prints ceil(l / 16) rows; each row covers 16
   * bytes of cells except the last, which covers at most 16.
   */
  lemma {:induction false} DumpRowSizes(m: map<Addr, Byte>, a: Addr, s: Width, l: int, v: MonStdio.Variant)
    requires Total(m) && Aligned(a, s)
    ensures var rows := DumpRows(m, a, s, l, v);
      |rows| == (if l <= 0 then 0 else (l + 15) / 16) &&
      (forall k :: 0 <= k < |rows| ==> rows[k].DumpRow? && |rows[k].cells| * s <= 16) &&
      (forall k :: 0 <= k < |rows| - 1 ==> |rows[k].cells| * s == 16)
    decreases l
  {
    if l > 0 {
      var r := Row(m, a, s, 16, l);
      var rows := DumpRows(m, a, s, l, v);
      DumpRowsStep(m, a, s, l, v);
      RowCount(m, a, s, RowCells(s), l);
      DumpRowSizes(m, r.next, s, r.left, v);
      var rest := DumpRows(m, r.next, s, r.left, v);
      assert rows == [rows[0]] + rest;
      assert |r.cells| * s <= 16 by {
        MulMonotone(s, |r.cells|, RowCells(s));
      }
      if l >= 16 {
        assert |r.cells| * s == 16 && r.left == l - 16;
      } else {
        assert r.left <= 0 && rest == [];
      }
      forall k | 0 <= k < |rows|
        ensures rows[k].DumpRow? && |rows[k].cells| * s <= 16
      {
        if k > 0 {
          assert rows[k] == rest[k - 1];
        }
      }
      forall k | 0 <= k < |rows| - 1
        ensures |rows[k].cells| * s == 16
      {
        if k > 0 {
          assert rows[k] == rest[k - 1];
        }
      }
    }
  }

  /** The text column as written shows the bytes from ca up to a, one character each. */
  lemma {:induction false} DotsAt(m: map<Addr, Byte>, ca: Addr, a: Addr)
    requires Total(m)
    ensures |Dots(m, ca, a)| == if ca < a then a - ca else 0
    ensures forall k :: 0 <= k < |Dots(m, ca, a)| ==> Dots(m, ca, a)[k] == Dot(m[ca + k])
    decreases a - ca
  {
    if ca < a {
      DotsAt(m, ca + 1, a);
      var d := Dots(m, ca, a);
      forall k | 0 <= k < |d|
        ensures d[k] == Dot(m[ca + k])
      {
        if k > 0 {
          assert d[k] == Dots(m, ca + 1, a)[k - 1];
        }
      }
    }
  }

  /** The intended text column has one character per cell shown. */
  lemma {:induction false} AsciiOfAt(cells: seq<nat>)
    ensures |AsciiOf(cells)| == |cells|
    ensures forall k :: 0 <= k < |cells| ==> AsciiOf(cells)[k] == Dot(cells[k])
  {
    if cells != [] {
      AsciiOfAt(cells[1..]);
      var t := AsciiOf(cells);
      forall k | 0 <= k < |cells|
        ensures t[k] == Dot(cells[k])
      {
        if k > 0 {
          assert t[k] == AsciiOf(cells[1..])[k - 1];
        }
      }
    }
  }

  /**
   * The text column as written is empty on a row of bytes that ends at the
   * top of memory: "D fffffffffffffff0" shows sixteen bytes and no text,
   * because the address after the row has wrapped to 0.
   */
  lemma TopRowTextAsWritten(m: map<Addr, Byte>, a: Addr, l: int)
    requires Total(m) && a == ADDR_LIMIT - 16 && l == 16
    ensures var cells := Cells(m, a, 1, l);
      |cells| == 16 && DumpRows(m, a, 1, l, MonStdio.AsWritten) == [DumpRow(a, cells, [])]
  {
    var r := Row(m, a, 1, 16, l);
    TopRow(m, a, l);
    DumpRowsStep(m, a, 1, l, MonStdio.AsWritten);
    assert RowText(m, a, 1, r, MonStdio.AsWritten) == [];
    assert DumpRows(m, r.next, 1, r.left, MonStdio.AsWritten) == [];
  }

  /** The row of bytes that ends at the top of memory stops at address 0. */
  lemma TopRow(m: map<Addr, Byte>, a: Addr, l: int)
    requires Total(m) && a == ADDR_LIMIT - 16 && l == 16
    ensures Row(m, a, 1, 16, l) == RowEnd(Cells(m, a, 1, l), 0, 0) && |Cells(m, a, 1, l)| == 16
  {
    var r := Row(m, a, 1, 16, l);
    assert |r.cells| == 16 && r.left == 0 by {
      RowCount(m, a, 1, 16, l);
    }
    assert r.next == 0 by {
      RowNext(m, a, 1, 16, l);
      CellAddrIs(a, 1, 16);
      DivModUnique(a + 16 * 1, ADDR_LIMIT, 1, 0);
    }
    assert r.cells == Cells(m, a, 1, l) by {
      RowSplit(m, a, 1, 16, l);
      assert Cells(m, r.next, 1, r.left) == [];
    }
  }

  /**
   * The text column the dump means: one character per byte of the row,
   * the byte at a + k (mod 2^64) under cell k.
   */
  lemma RowTextIntended(m: map<Addr, Byte>, a: Addr, l: int)
    requires Total(m)
    ensures var r := Row(m, a, 1, 16, l); var t := RowText(m, a, 1, r, MonStdio.Intended);
      |t| == |r.cells| && forall k :: 0 <= k < |t| ==> t[k] == Dot(m[(a + k) % ADDR_LIMIT])
  {
    var r := Row(m, a, 1, 16, l);
    var t := RowText(m, a, 1, r, MonStdio.Intended);
    AsciiOfAt(r.cells);
    forall k | 0 <= k < |t|
      ensures t[k] == Dot(m[(a + k) % ADDR_LIMIT])
    {
      RowByte(m, a, l, k);
    }
  }

  /** The k-th cell of a byte row is the byte at a + k, modulo 2^64. */
  lemma RowByte(m: map<Addr, Byte>, a: Addr, l: int, k: nat)
    requires Total(m) && k < |Row(m, a, 1, 16, l).cells|
    ensures Row(m, a, 1, 16, l).cells[k] == m[(a + k) % ADDR_LIMIT]
  {
    var r := Row(m, a, 1, 16, l);
    RowSplit(m, a, 1, 16, l);
    assert r.cells[k] == Cells(m, a, 1, l)[k];
    CellsAt(m, a, 1, l, k);
    CellAddrIs(a, 1, k);
    var x := CellAddr(a, 1, k);
    assert Load(m, x, 1) == m[x];
  }

  /**
   * The text as written is the intended text exactly when the row does
   * not reach the top of memory.
   */
  lemma RowTextAgrees(m: map<Addr, Byte>, a: Addr, l: int)
    requires Total(m)
    ensures var r := Row(m, a, 1, 16, l);
      r.cells != [] ==>
        (RowText(m, a, 1, r, MonStdio.AsWritten) == RowText(m, a, 1, r, MonStdio.Intended) <==> a + |r.cells| < ADDR_LIMIT)
  {
    var r := Row(m, a, 1, 16, l);
    var t := RowText(m, a, 1, r, MonStdio.Intended);
    var d := Dots(m, a, r.next);
    assert RowText(m, a, 1, r, MonStdio.AsWritten) == d;
    RowTextIntended(m, a, l);
    assert |r.cells| <= 16 by {
      RowCount(m, a, 1, 16, l);
    }
    var e := a + |r.cells|;
    assert r.next == e % ADDR_LIMIT by {
      RowNext(m, a, 1, 16, l);
      CellAddrIs(a, 1, |r.cells|);
    }
    DotsAt(m, a, r.next);
    if e < ADDR_LIMIT {
      DivModUnique(e, ADDR_LIMIT, 0, e);
      forall k | 0 <= k < |t|
        ensures d[k] == t[k]
      {
        DivModUnique(a + k, ADDR_LIMIT, 0, a + k);
      }
      assert d == t;
    } else {
      DivModUnique(e, ADDR_LIMIT, 1, e - ADDR_LIMIT);
      assert r.next < a;
    }
  }

  // ---------------------------------------------------------------- zero_op

  /** What a Z line asks for. */
  datatype ZeroAction = ZeroHow | ZeroRange(start: Addr, end: Addr)

  /**
   * zero_op(p): a start address, then optionally ',' and an end address
   * (0 when missing), then nothing; the start may not exceed the end.
   */
  function ZeroParse(line: seq<char>, p: nat): (r: ZeroAction)
    ensures r.ZeroRange? ==> r.start <= r.end
  {
    ZeroAfterStart(line, GetHex(line, FirstNonSpace(line, p), 16))
  }

  /** zero_op once gethex has read (or failed to read) the start address. */
  function ZeroAfterStart(line: seq<char>, s: HexParse): (r: ZeroAction)
    requires s.value < ADDR_LIMIT
    ensures r.ZeroRange? ==> r.start <= r.end
  {
    if s.next.None? then ZeroHow
    else
      var q := FirstNonSpace(line, s.next.value);
      if At(line, q) == ',' then
        var e := GetHex(line, FirstNonSpace(line, q + 1), 16);
        if e.next.None? then ZeroHow
        else ZeroCheck(line, FirstNonSpace(line, e.next.value), s.value, e.value)
      else ZeroCheck(line, q, s.value, 0)
  }

  /** The last checks of zero_op: nothing may follow, and start <= end. */
  function ZeroCheck(line: seq<char>, p: nat, s: Addr, e: Addr): (r: ZeroAction)
    ensures r.ZeroRange? ==> r.start <= r.end
  {
    if At(line, p) != NUL || s > e then ZeroHow else ZeroRange(s, e)
  }

  /** The limit of the 8-byte stores: e & ~7, the end rounded down to a multiple of 8. */
  function QuadLimit(e: Addr): Addr
  {
    e - e % 8
  }

  /**
   * The stores zero_op may issue for [s, e): single bytes inside the range,
   * and 8-byte stores at multiples of 8 that lie wholly below e & ~7.
   */
  predicate ZeroStore(op: StoreOp, s: Addr, e: Addr)
  {
    (op.width == 1 && s <= op.addr < e) ||
    (op.width == 8 && op.addr % 8 == 0 && s <= op.addr && op.addr + 8 <= QuadLimit(e))
  }

  /** Every store in ops is one zero_op may issue for [s, e). */
  predicate ZeroStores(ops: seq<StoreOp>, s: Addr, e: Addr)
  {
    forall k :: 0 <= k < |ops| ==> ZeroStore(ops[k], s, e)
  }

  /** The memory m with the bytes of [s, e) set to zero. */
  function Cleared(m: map<Addr, Byte>, s: nat, e: nat): (r: map<Addr, Byte>)
    ensures r.Keys == m.Keys
  {
    map x | x in m :: if s <= x < e then 0 else m[x]
  }

  /** Zeroing the w-byte cell right after a cleared range extends the range. */
  lemma ClearMore(m: map<Addr, Byte>, s: nat, e: nat, w: nat)
    requires s <= e && e + w <= ADDR_LIMIT
    ensures Store(Cleared(m, s, e), e, w, 0) == Cleared(m, s, e + w)
  {
    forall x | x in m
      ensures Store(Cleared(m, s, e), e, w, 0)[x] == Cleared(m, s, e + w)[x]
    {
      if e <= x < e + w {
        ByteOfZero(x - e);
      }
    }
  }

  // ---------------------------------------------------------------- S-records

  /** The memory after the poke callback was called with pokes[i..] in turn (mypoke = poke8). */
  function Applied(m: map<Addr, Byte>, pokes: seq<Poke>, i: nat): (r: map<Addr, Byte>)
    requires Total(m)
    ensures Total(r)
    decreases |pokes| - i
  {
    if i >= |pokes| then m else Applied(m[pokes[i].addr := pokes[i].value], pokes, i + 1)
  }

  /** poke8 of a byte replaces just that byte. */
  lemma StoreByte(m: map<Addr, Byte>, a: Addr, v: Byte)
    requires Total(m)
    ensures Store(m, a, 1, v) == m[a := v]
  {
    assert ByteOf(v, 0) == v;
  }

  /** The byte stores those calls issue. */
  function ByteStores(pokes: seq<Poke>, i: nat): seq<StoreOp>
    decreases |pokes| - i
  {
    if i >= |pokes| then [] else [StoreOp(pokes[i].addr, 1)] + ByteStores(pokes, i + 1)
  }

  /**
   * Pokes of consecutive addresses from addr, as a data record makes them,
   * leave their bytes in memory and every other byte as it was.
   */
  lemma {:induction false} AppliedRun(m: map<Addr, Byte>, pokes: seq<Poke>, i: nat, addr: nat)
    requires Total(m)
    requires forall k :: 0 <= k < |pokes| ==> pokes[k].addr == addr + k
    ensures Total(Applied(m, pokes, i))
    ensures forall x: Addr :: Applied(m, pokes, i)[x] == if addr + i <= x < addr + |pokes| then pokes[x - addr].value else m[x]
    decreases |pokes| - i
  {
    if i < |pokes| {
      AppliedRun(m[pokes[i].addr := pokes[i].value], pokes, i + 1, addr);
    }
  }

  /** The pokes of a record's data leave the data at its address and all else unchanged. */
  lemma AppliedData(m: map<Addr, Byte>, addr: nat, data: seq<Byte>)
    requires Total(m) && addr + |data| <= ADDR_LIMIT
    ensures var m' := Applied(m, SRecordFormat.PokesOf(addr, data), 0);
      forall x: Addr :: m'[x] == if addr <= x < addr + |data| then data[x - addr] else m[x]
  {
    var pokes := SRecordFormat.PokesOf(addr, data);
    AppliedRun(m, pokes, 0, addr);
    forall x: Addr
      ensures Applied(m, pokes, 0)[x] == if addr <= x < addr + |data| then data[x - addr] else m[x]
    {
      if addr <= x < addr + |data| {
        assert pokes[x - addr].value == data[x - addr];
      }
    }
  }

  /**
   * Loading a data record a writer produced stores its data bytes at its
   * address and changes no other byte.
   */
  lemma RecordLoads(m: map<Addr, Byte>, t: char, addr: nat, data: seq<Byte>)
    requires Total(m) && SRecordFormat.Writable(t, addr, data)
    ensures addr + |data| <= ADDR_LIMIT
    ensures Decode(SRecordFormat.Record(t, addr, data)).code == SREC_OK
    ensures var m' := Applied(m, Decode(SRecordFormat.Record(t, addr, data)).pokes, 0);
      forall x: Addr :: m'[x] == if addr <= x < addr + |data| then data[x - addr] else m[x]
  {
    SRecordFormat.RecordRoundTrip(t, addr, data);
    AppliedData(m, addr, data);
  }

  /** What the monitor prints for a result code of process_s_record. */
  function RecordMessages(code: int, line: seq<char>): seq<Message>
  {
    if code == SREC_EOF then [EndOfRecords]
    else if code < 0 then [BadRecord(CString(line))]
    else []
  }

  // ---------------------------------------------------------------- reading lines

  /** Where gethex stops: a run of hex digits with no digit right after it. */
  lemma {:induction false} HexRunExact(s: seq<char>, p: nat, n: nat, max: nat)
    requires n <= max && HexDigitsAt(s, p, n) && (n < max ==> !IsXDigit(At(s, p + n)))
    ensures HexRun(s, p, max) == n
    decreases n
  {
    if n > 0 {
      HexRunExact(s, p + 1, n - 1, max - 1);
    }
  }

  /** The value of digits copied into a line is the value of the digits. */
  lemma {:induction false} HexValueShift(line: seq<char>, p: nat, h: seq<char>, n: nat)
    requires n <= |h| && p + |h| <= |line| && line[p..p + |h|] == h && HexDigitsAt(h, 0, n)
    ensures HexDigitsAt(line, p, n) && HexValueAt(line, p, n) == HexValueAt(h, 0, n)
  {
    forall k | 0 <= k < n
      ensures At(line, p + k) == At(h, k)
    {
      assert line[p + k] == line[p..p + |h|][k];
    }
    if n > 0 {
      HexValueShift(line, p, h, n - 1);
      assert At(line, p + n - 1) == At(h, n - 1);
      assert HexValueAt(line, p, n) == 16 * HexValueAt(line, p, n - 1) + DigitValue(At(line, p + n - 1));
    }
  }

  /** The lower-case hexadecimal text of v, as %x prints it and as a user types it. */
  function LowerHex(v: nat): seq<char>
  {
    MonStdio.Hex(v, "abcdef")
  }

  /** An address has at most 16 hexadecimal digits, a value below 256^s at most 2s. */
  lemma HexFitsCell(v: nat, s: Width)
    requires v < Pow(256, s)
    ensures |LowerHex(v)| <= 2 * s <= 16 && v < ADDR_LIMIT
  {
    Pow16Twice(s);
    MonStdio.HexLength(v, 2 * s, "abcdef");
    PowMonotone(16, 2 * s, 16);
    Pow16Is2To64();
  }

  /**
   * A field holding the hexadecimal text of v at p, followed by a character
   * that is not a hex digit: it starts at p (no white space to skip) and
   * gethex reads v from it, leaving the cursor just after it.
   */
  lemma HexField(line: seq<char>, p: nat, v: nat, max: nat)
    requires v < ADDR_LIMIT && max <= 16
    requires var h := LowerHex(v);
      |h| <= max && p + |h| <= |line| && line[p..p + |h|] == h && !IsXDigit(At(line, p + |h|))
    ensures FirstNonSpace(line, p) == p
    ensures GetHex(line, p, max) == HexParse(v, Some(p + |LowerHex(v)|))
  {
    var h := LowerHex(v);
    var n := |h|;
    assert HexDigitsAt(h, 0, n) && HexValueAt(h, 0, n) == v && n > 0 by {
      MonStdio.CaseLetters();
      MonStdio.HexReadsBack(v, "abcdef");
    }
    assert HexDigitsAt(line, p, n) && HexValueAt(line, p, n) == v by {
      HexValueShift(line, p, h, n);
    }
    assert HexRun(line, p, max) == n by {
      HexRunExact(line, p, n, max);
    }
    assert FirstNonSpace(line, p) == p by {
      ClassifierRelations(At(line, p));
      StopsHere(line, p);
    }
  }

  /** An address typed after a command letter fits gethex's 16 digits. */
  lemma AddrField(line: seq<char>, p: nat, a: Addr)
    requires var h := LowerHex(a);
      p + |h| <= |line| && line[p..p + |h|] == h && !IsXDigit(At(line, p + |h|))
    ensures FirstNonSpace(line, p) == p
    ensures GetHex(line, p, 16) == HexParse(a, Some(p + |LowerHex(a)|))
  {
    Pow16Is2To64();
    MonStdio.HexLength(a, 16, "abcdef");
    HexField(line, p, a, 16);
  }

  /** The middle part of a line made of three parts, and the character after it. */
  lemma Slot(x: seq<char>, h: seq<char>, y: seq<char>)
    ensures var line := x + h + y;
      line[|x|..|x| + |h|] == h && At(line, |x| + |h|) == if y == [] then NUL else y[0]
  {
    var line := x + h + y;
    assert line[|x|..|x| + |h|] == h;
  }

  /** A hex field typed in a line: x, then the lower-case digits of v, then y, which does not start with a hex digit. */
  lemma FieldAt(x: seq<char>, v: nat, y: seq<char>, max: nat)
    requires v < ADDR_LIMIT && |LowerHex(v)| <= max <= 16
    requires y == [] || !IsXDigit(y[0])
    ensures var line, p := x + LowerHex(v) + y, |x|;
      FirstNonSpace(line, p) == p && GetHex(line, p, max) == HexParse(v, Some(p + |LowerHex(v)|)) &&
      At(line, p + |LowerHex(v)|) == if y == [] then NUL else y[0]
  {
    var h := LowerHex(v);
    Slot(x, h, y);
    ClassifierRelations(NUL);
    HexField(x + h + y, |x|, v, max);
  }

  /** A hex field that ends the line. */
  lemma FieldEnd(x: seq<char>, v: nat, max: nat)
    requires v < ADDR_LIMIT && |LowerHex(v)| <= max <= 16
    ensures var line, p := x + LowerHex(v), |x|;
      FirstNonSpace(line, p) == p && GetHex(line, p, max) == HexParse(v, Some(|line|)) && At(line, |line|) == NUL
  {
    FieldAt(x, v, [], max);
    AppendNil(x + LowerHex(v));
  }

  /** An address fits gethex's 16 digits. */
  lemma AddrDigitsFit(a: Addr)
    ensures |LowerHex(a)| <= 16
  {
    Pow16Is2To64();
    MonStdio.HexLength(a, 16, "abcdef");
  }

  /** "b1000" and the like: a B/H/W/Q line with an address shows the cell, or says "How?" when it is misaligned. */
  lemma WordShowLine(c: char, a: Addr, s: Width)
    ensures WordParse([c] + LowerHex(a), 1, s) == if Aligned(a, s) then WordShow(a) else WordHow
  {
    var h := LowerHex(a);
    Slot([c], h, []);
    AppendNil([c] + h);
    AddrField([c] + h, 1, a);
  }

  /** "w1000=2a" and the like: a line with an aligned address and a value of the cell's size sets the cell. */
  lemma WordSetLine(c: char, a: Addr, v: nat, s: Width)
    requires v < Pow(256, s)
    ensures WordParse([c] + LowerHex(a) + ['='] + LowerHex(v), 1, s) == if Aligned(a, s) then WordSet(a, v) else WordHow
  {
    var line := [c] + LowerHex(a) + ['='] + LowerHex(v);
    var q := 1 + |LowerHex(a)|;
    AddrBefore(c, a, '=', LowerHex(v));
    ValueAtEnd(c, a, v, s);
    WordSetFields(line, 1, a, q, v, |line|, s);
  }

  /** In "<c><address><d><rest>", with d not a hex digit, the address is read from position 1 and stops at d. */
  lemma AddrBefore(c: char, a: Addr, d: char, z: seq<char>)
    requires !IsXDigit(d)
    ensures var line := [c] + LowerHex(a) + [d] + z; var q := 1 + |LowerHex(a)|;
      FirstNonSpace(line, 1) == 1 && GetHex(line, 1, 16) == HexParse(a, Some(q)) && At(line, q) == d
  {
    var h := LowerHex(a);
    AddrDigitsFit(a);
    FieldAt([c], a, [d] + z, 16);
    AppendAssoc([c] + h, [d], z);
  }

  /** In "<c><address>=<value>" the value is read after the '=' and ends the line. */
  lemma ValueAtEnd(c: char, a: Addr, v: nat, s: Width)
    requires v < Pow(256, s)
    ensures var line := [c] + LowerHex(a) + ['='] + LowerHex(v); var q := 1 + |LowerHex(a)|;
      FirstNonSpace(line, q + 1) == q + 1 && GetHex(line, q + 1, 2 * s) == HexParse(v, Some(|line|)) && At(line, |line|) == NUL
  {
    var h, g := LowerHex(a), LowerHex(v);
    HexFitsCell(v, s);
    FieldEnd([c] + h + ['='], v, 2 * s);
  }

  /** word_op on a line whose address and value were read: only the alignment check remains. */
  lemma WordSetFields(line: seq<char>, p: nat, a: Addr, q: nat, v: nat, e: nat, s: Width)
    requires FirstNonSpace(line, p) == p && GetHex(line, p, 16) == HexParse(a, Some(q)) && At(line, q) == '='
    requires FirstNonSpace(line, q + 1) == q + 1 && GetHex(line, q + 1, 2 * s) == HexParse(v, Some(e)) && At(line, e) == NUL
    ensures WordParse(line, p, s) == if Aligned(a, s) then WordSet(a, v) else WordHow
  {
    StopsHere(line, q);
    StopsHere(line, e);
  }

  /**
   * "b1000x": after the address, a character other than white space, '='
   * or the end of the line is ignored: an aligned address does nothing at
   * all, a misaligned one still says "How?".
   */
  lemma WordStrayLine(c: char, a: Addr, t: seq<char>, s: Width)
    requires t != [] && t[0] != NUL && t[0] != '=' && !IsSpace(t[0]) && !IsXDigit(t[0])
    ensures WordParse([c] + LowerHex(a) + t, 1, s) == if Aligned(a, s) then WordSilent else WordHow
  {
    var line := [c] + LowerHex(a) + t;
    AddrDigitsFit(a);
    FieldAt([c], a, t, 16);
    StopsHere(line, 1 + |LowerHex(a)|);
  }

  /** "b1000=" and "b1000=zz": an '=' with no hexadecimal value after it says "How?" and writes nothing. */
  lemma WordSetNoValue(c: char, a: Addr, y: seq<char>, s: Width)
    requires y == [] || (!IsSpace(y[0]) && !IsXDigit(y[0]))
    ensures WordParse([c] + LowerHex(a) + ['='] + y, 1, s) == WordHow
  {
    var line := [c] + LowerHex(a) + ['='] + y;
    var q := 1 + |LowerHex(a)|;
    AddrBefore(c, a, '=', y);
    assert At(line, q + 1) == if y == [] then NUL else y[0];
    ClassifierRelations(NUL);
    StopsHere(line, q);
    StopsHere(line, q + 1);
  }

  /** "b1000=2ax": text right after the value says "How?" and writes nothing. */
  lemma WordSetTrailing(c: char, a: Addr, v: nat, s: Width, t: seq<char>)
    requires v < Pow(256, s)
    requires t != [] && t[0] != NUL && !IsSpace(t[0]) && !IsXDigit(t[0])
    ensures WordParse([c] + LowerHex(a) + ['='] + LowerHex(v) + t, 1, s) == WordHow
  {
    var line := [c] + LowerHex(a) + ['='] + LowerHex(v) + t;
    var q := 1 + |LowerHex(a)|;
    AddrBeforeTwo(c, a, '=', LowerHex(v), t);
    ValueBeforeTail(c, a, v, s, t);
    WordTrailFields(line, 1, a, q, q + 1 + |LowerHex(v)|, s);
  }

  /** In "<c><address>=<value><t>" the value is read after the '=' and stops at t. */
  lemma ValueBeforeTail(c: char, a: Addr, v: nat, s: Width, t: seq<char>)
    requires v < Pow(256, s)
    requires t != [] && !IsXDigit(t[0])
    ensures var line := [c] + LowerHex(a) + ['='] + LowerHex(v) + t; var q := 1 + |LowerHex(a)|; var e := q + 1 + |LowerHex(v)|;
      FirstNonSpace(line, q + 1) == q + 1 && GetHex(line, q + 1, 2 * s) == HexParse(v, Some(e)) && At(line, e) == t[0]
  {
    var x := [c] + LowerHex(a) + ['='];
    HexFitsCell(v, s);
    FieldAt(x, v, t, 2 * s);
    assert |x| == 1 + |LowerHex(a)| + 1;
  }

  /** AddrBefore, for a rest typed in two parts. */
  lemma AddrBeforeTwo(c: char, a: Addr, d: char, y: seq<char>, z: seq<char>)
    requires !IsXDigit(d)
    ensures var line := [c] + LowerHex(a) + [d] + y + z; var q := 1 + |LowerHex(a)|;
      FirstNonSpace(line, 1) == 1 && GetHex(line, 1, 16) == HexParse(a, Some(q)) && At(line, q) == d
  {
    var h := LowerHex(a);
    AddrDigitsFit(a);
    FieldAt([c], a, [d] + y + z, 16);
    assert [c] + h + ([d] + y + z) == [c] + h + [d] + y + z;
  }

  /**
   * "b1000=123": a value of more than 2s digits, leading zeros included,
   * says "How?": gethex stops after 2s digits on a digit, not at the end
   * of the line, so no truncated value is stored.
   */
  lemma WordSetLong(c: char, a: Addr, d: seq<char>, s: Width)
    requires |d| > 2 * s && forall k :: 0 <= k < |d| ==> IsXDigit(d[k])
    ensures WordParse([c] + LowerHex(a) + ['='] + d, 1, s) == WordHow
  {
    var line := [c] + LowerHex(a) + ['='] + d;
    var q := 1 + |LowerHex(a)|;
    AddrBefore(c, a, '=', d);
    LongValueFields(c, a, d, s);
    WordTrailFields(line, 1, a, q, q + 1 + 2 * s, s);
  }

  /** In "<c><address>=<digits>" with more than 2s digits, gethex reads 2s of them after the '=' and stops on the next. */
  lemma LongValueFields(c: char, a: Addr, d: seq<char>, s: Width)
    requires |d| > 2 * s && forall k :: 0 <= k < |d| ==> IsXDigit(d[k])
    ensures var line := [c] + LowerHex(a) + ['='] + d; var q := 1 + |LowerHex(a)|; var e := q + 1 + 2 * s;
      FirstNonSpace(line, q + 1) == q + 1 && GetHex(line, q + 1, 2 * s).next == Some(e) &&
      At(line, e) != NUL && !IsSpace(At(line, e))
  {
    var x := [c] + LowerHex(a) + ['='];
    var line := x + d;
    assert |x| == 1 + |LowerHex(a)| + 1;
    DigitsAt(x, d, 2 * s + 1);
    DigitsCut(line, |x|, 2 * s);
    ClassifierRelations(At(line, |x| + 2 * s));
    ClassifierRelations(NUL);
  }

  /** Hex digits typed after x are hex digits of the line, at their places. */
  lemma DigitsAt(x: seq<char>, d: seq<char>, n: nat)
    requires n <= |d| && forall k :: 0 <= k < |d| ==> IsXDigit(d[k])
    ensures HexDigitsAt(x + d, |x|, n)
  {
    forall k | |x| <= k < |x| + n
      ensures IsXDigit(At(x + d, k))
    {
      assert At(x + d, k) == d[k - |x|];
    }
  }

  /** gethex with room for n digits, at more than n digits: it reads n and stops on a digit. */
  lemma DigitsCut(line: seq<char>, p: nat, n: nat)
    requires 1 <= n <= 16 && HexDigitsAt(line, p, n + 1)
    ensures FirstNonSpace(line, p) == p && GetHex(line, p, n) == HexParse(HexValueAt(line, p, n), Some(p + n)) && IsXDigit(At(line, p + n))
  {
    assert GetHex(line, p, n) == HexParse(HexValueAt(line, p, n), Some(p + n)) by {
      HexRunExact(line, p, n, n);
    }
    assert FirstNonSpace(line, p) == p by {
      ClassifierRelations(At(line, p));
      StopsHere(line, p);
    }
  }

  /** word_op on a line whose address and value were read but whose value does not end the line: "How?". */
  lemma WordTrailFields(line: seq<char>, p: nat, a: Addr, q: nat, e: nat, s: Width)
    requires FirstNonSpace(line, p) == p && GetHex(line, p, 16) == HexParse(a, Some(q)) && At(line, q) == '='
    requires FirstNonSpace(line, q + 1) == q + 1 && GetHex(line, q + 1, 2 * s).next == Some(e)
    requires At(line, e) != NUL && !IsSpace(At(line, e))
    ensures WordParse(line, p, s) == WordHow
  {
    StopsHere(line, q);
    StopsHere(line, e);
  }

  /** "d1000": a D line with an address alone dumps 16 bytes from it. */
  lemma DumpLine(c: char, a: Addr)
    ensures DumpParse([c] + LowerHex(a), 1) == DumpRun(a, 16, 1)
  {
    var h := LowerHex(a);
    Slot([c], h, []);
    AppendNil([c] + h);
    AddrField([c] + h, 1, a);
  }

  /** "d1000,40": a D line with an address and a length of up to 4 digits dumps that many bytes in 1-byte cells. */
  lemma DumpLengthLine(c: char, a: Addr, l: nat)
    requires l < 0x1_0000
    ensures DumpParse([c] + LowerHex(a) + [','] + LowerHex(l), 1) == DumpRun(a, l, 1)
  {
    var h, g := LowerHex(a), LowerHex(l);
    var line := [c] + h + [','] + g;
    AddrBefore(c, a, ',', g);
    assert |g| <= 4 by {
      assert Pow(16, 4) == 0x1_0000;
      MonStdio.HexLength(l, 4, "abcdef");
    }
    FieldEnd([c] + h + [','], l, 4);
    DumpLengthFields(line, 1, a, 1 + |h|, l, |line|);
  }

  /**
   * "d1000,40,4": a D line with an address, a length of up to 4 digits and
   * a size digit dumps l bytes in cells of s bytes, or says "Sorry :-("
   * when s is not 1, 2, 4 or 8 or the address is not aligned to it. The
   * length counts bytes, not cells, since each cell shown takes s off it.
   */
  lemma DumpSizeLine(c: char, a: Addr, l: nat, s: nat)
    requires l < 0x1_0000 && s < 16
    ensures DumpParse([c] + LowerHex(a) + [','] + LowerHex(l) + [','] + LowerHex(s), 1) ==
      if (s == 1 || s == 2 || s == 4 || s == 8) && a % s == 0 then DumpRun(a, l, s) else DumpSorry
  {
    var h, g, k := LowerHex(a), LowerHex(l), LowerHex(s);
    var x := [c] + h + [','];
    var line := x + g + [','] + k;
    AddrDigitsFit(a);
    FieldAt([c], a, [','] + g + [','] + k, 16);
    SizeLineParts(c, h, g, k);
    LengthSizeDigits(l, s);
    FieldAt(x, l, [','] + k, 4);
    AppendAssoc(x + g, [','], k);
    FieldEnd(x + g + [','], s, 1);
    DumpFields(line, 1, a, 1 + |h|, l, |x| + |g|, s, |line|);
  }

  /** "<c><address>,<length>,<size>" read from its first ',' onwards. */
  lemma SizeLineParts(c: char, h: seq<char>, g: seq<char>, k: seq<char>)
    ensures [c] + h + ([','] + g + [','] + k) == [c] + h + [','] + g + [','] + k
  {
  }

  /** A length below 0x10000 has at most 4 hex digits and a size below 16 one. */
  lemma LengthSizeDigits(l: nat, s: nat)
    requires l < 0x1_0000 && s < 16
    ensures |LowerHex(l)| <= 4 && |LowerHex(s)| <= 1 && l < ADDR_LIMIT && s < ADDR_LIMIT
  {
    assert Pow(16, 4) == 0x1_0000;
    MonStdio.HexLength(l, 4, "abcdef");
    MonStdio.HexLength(s, 1, "abcdef");
    Pow16Is2To64();
  }

  /** dump_op on a line whose address and length were read and end the line: size 1 is taken. */
  lemma DumpLengthFields(line: seq<char>, p: nat, a: Addr, q: nat, l: nat, e: nat)
    requires FirstNonSpace(line, p) == p && GetHex(line, p, 16) == HexParse(a, Some(q)) && At(line, q) == ','
    requires FirstNonSpace(line, q + 1) == q + 1 && GetHex(line, q + 1, 4) == HexParse(l, Some(e)) && At(line, e) == NUL
    ensures DumpParse(line, p) == DumpRun(a, l, 1)
  {
    DumpAddrStep(line, p, a, q);
    DumpLengthStep(line, a, q, HexParse(l, Some(e)));
    StopsHere(line, e);
  }

  /** dump_op on a line whose address, length and size were read: only the last checks remain. */
  lemma DumpFields(line: seq<char>, p: nat, a: Addr, q: nat, l: nat, q': nat, s: nat, e: nat)
    requires FirstNonSpace(line, p) == p && GetHex(line, p, 16) == HexParse(a, Some(q)) && At(line, q) == ','
    requires FirstNonSpace(line, q + 1) == q + 1 && GetHex(line, q + 1, 4) == HexParse(l, Some(q')) && At(line, q') == ','
    requires FirstNonSpace(line, q' + 1) == q' + 1 && GetHex(line, q' + 1, 1) == HexParse(s, Some(e)) && At(line, e) == NUL
    ensures DumpParse(line, p) == if (s == 1 || s == 2 || s == 4 || s == 8) && a % s == 0 then DumpRun(a, l, s) else DumpSorry
  {
    DumpAddrStep(line, p, a, q);
    DumpLengthStep(line, a, q, HexParse(l, Some(q')));
    DumpSizeStep(line, a, l, q', s, e);
  }

  /** The first stage of dump_op: the address was read and the cursor is after it. */
  lemma DumpAddrStep(line: seq<char>, p: nat, a: Addr, q: nat)
    requires FirstNonSpace(line, p) == p && GetHex(line, p, 16) == HexParse(a, Some(q))
    ensures DumpParse(line, p) == DumpAfterAddr(line, HexParse(a, Some(q)))
  {
  }

  /** The second stage: a ',' follows the address at once, and the length is read after it. */
  lemma DumpLengthStep(line: seq<char>, a: Addr, q: nat, l: HexParse)
    requires At(line, q) == ',' && FirstNonSpace(line, q + 1) == q + 1 && GetHex(line, q + 1, 4) == l
    ensures DumpAfterAddr(line, HexParse(a, Some(q))) == DumpAfterLength(line, a, l)
  {
    StopsHere(line, q);
  }

  /** The third stage: a ',' follows the length at once, and the size digit is read after it and ends the line. */
  lemma DumpSizeStep(line: seq<char>, a: Addr, l: nat, q: nat, s: nat, e: nat)
    requires At(line, q) == ',' && FirstNonSpace(line, q + 1) == q + 1 && GetHex(line, q + 1, 1) == HexParse(s, Some(e)) && At(line, e) == NUL
    ensures DumpAfterLength(line, a, HexParse(l, Some(q))) == DumpCheck(line, e, a, l, s)
  {
    StopsHere(line, q);
    StopsHere(line, e);
  }

  /** "g80000": a G line with an address alone starts cores 1, 2 and 3 there, then jumps there itself. */
  lemma GoLine(c: char, a: Addr)
    ensures GoParse([c] + LowerHex(a), 1) == GoAll(a)
    ensures LaunchesOf(GoAll(a)) == [Release(1, a), Release(2, a), Release(3, a), Go(a)]
  {
    var h := LowerHex(a);
    Slot([c], h, []);
    AppendNil([c] + h);
    AddrField([c] + h, 1, a);
  }

  /**
   * "g80000 ,2" or "g80000x": go_op looks for the ',' right after the
   * address, without skipping white space, so anything else there makes
   * the rest of the line ignored and starts every core at a.
   */
  lemma GoStrayLine(c: char, a: Addr, t: seq<char>)
    requires t != [] && t[0] != ',' && !IsXDigit(t[0])
    ensures GoParse([c] + LowerHex(a) + t, 1) == GoAll(a)
  {
    AddrDigitsFit(a);
    FieldAt([c], a, t, 16);
  }

  /**
   * "g80000,2": a G line with an address and a core number starts that
   * core there (core 0 is this one), or says "Sorry :-(" for a core above 3.
   */
  lemma GoCoreLine(c: char, a: Addr, d: nat)
    requires d < 16
    ensures GoParse([c] + LowerHex(a) + [','] + LowerHex(d), 1) == if d <= 3 then GoCore(a, d) else GoSorry
  {
    var h, g := LowerHex(a), LowerHex(d);
    var line := [c] + h + [','] + g;
    Slot([c], h, [','] + g);
    AppendAssoc([c] + h, [','], g);
    Slot([c] + h + [','], g, []);
    AppendNil(line);
    AddrField(line, 1, a);
    MonStdio.HexLength(d, 1, "abcdef");
    HexField(line, 2 + |h|, d, 1);
  }

  /** "z1000,2000": a Z line with a start and an end clears that range, or says "How?" when the start is past the end. */
  lemma ZeroRangeLine(c: char, s: Addr, e: Addr)
    ensures ZeroParse([c] + LowerHex(s) + [','] + LowerHex(e), 1) == if s <= e then ZeroRange(s, e) else ZeroHow
  {
    var h, g := LowerHex(s), LowerHex(e);
    var line := [c] + h + [','] + g;
    AddrDigitsFit(s);
    AddrDigitsFit(e);
    FieldAt([c], s, [','] + g, 16);
    AppendAssoc([c] + h, [','], g);
    FieldEnd([c] + h + [','], e, 16);
    ZeroFields(line, 1, s, 1 + |h|, e);
  }

  /** zero_op on a line whose start and end were read: only the order check remains. */
  lemma ZeroFields(line: seq<char>, p: nat, s: Addr, q: nat, e: Addr)
    requires FirstNonSpace(line, p) == p && GetHex(line, p, 16) == HexParse(s, Some(q)) && At(line, q) == ','
    requires FirstNonSpace(line, q + 1) == q + 1 && GetHex(line, q + 1, 16) == HexParse(e, Some(|line|))
    requires At(line, |line|) == NUL
    ensures ZeroParse(line, p) == if s <= e then ZeroRange(s, e) else ZeroHow
  {
    assert ZeroParse(line, p) == ZeroAfterStart(line, HexParse(s, Some(q)));
    StopsHere(line, q);
    StopsHere(line, |line|);
  }

  /** The cursor does not move off a character that is not white space. */
  lemma StopsHere(line: seq<char>, p: nat)
    requires !IsSpace(At(line, p))
    ensures FirstNonSpace(line, p) == p
  {
  }

  /** "z1000": without an end the end is 0, so a Z line with a start alone clears nothing unless the start is 0. */
  lemma ZeroStartLine(c: char, s: Addr)
    ensures ZeroParse([c] + LowerHex(s), 1) == if s == 0 then ZeroRange(0, 0) else ZeroHow
  {
    var h := LowerHex(s);
    Slot([c], h, []);
    AppendNil([c] + h);
    AddrField([c] + h, 1, s);
  }

  // ---------------------------------------------------------------- the monitor

  /** The monitor's state: the memory, the S-record loader, what it printed and what it started. */
  class Monitor {
    const mem: Memory
    const loader: Loader
    var output: seq<Message>
    var launches: seq<Launch>

    ghost predicate Valid()
      reads this, mem
    {
      mem.Valid()
    }

    /** monitor(prompt) starts by printing the help text. */
    constructor (init: map<Addr, Byte>)
      requires Total(init)
      ensures Valid() && fresh(mem) && fresh(loader)
      ensures mem.cells == init && mem.stores == []
      ensures loader.goodCount == 0 && loader.badCount == 0
      ensures output == [HelpText] && launches == []
    {
      mem := new Memory(init);
      loader := new Loader();
      output := [HelpText];
      launches := [];
    }

    /** Nothing but the output changed, and it grew by msgs. */
    twostate predicate Printed(msgs: seq<Message>)
      reads this, mem, loader
    {
      output == old(output) + msgs && launches == old(launches) &&
      mem.cells == old(mem.cells) && mem.stores == old(mem.stores) &&
      loader.goodCount == old(loader.goodCount) && loader.badCount == old(loader.badCount)
    }

    /**
     * One pass of the loop of monitor(): the line m_gets read is dispatched
     * on its first non-space character.
     */
    method Execute(line: seq<char>)
      requires Valid()
      modifies this, mem, loader
      ensures Valid() && Executed(line)
    {
      var q := SkipSpaces(line, 0);
      Dispatch(line, q, CommandOf(At(line, q)));
    }

    /** What one line does, by the handler its first non-space character selects. */
    twostate predicate Executed(line: seq<char>)
      requires old(Valid()) && Valid()
      reads this, mem, loader
    {
      var q := FirstNonSpace(line, 0);
      Dispatched(line, q, CommandOf(At(line, q)))
    }

    /** The switch of monitor(): the handler c runs on the rest of the line after q. */
    method Dispatch(line: seq<char>, q: nat, c: Command)
      requires Valid() && (c == SRecord ==> q < |line|)
      modifies this, mem, loader
      ensures Valid() && Dispatched(line, q, c)
    {
      match c
      case Nothing =>
      case SRecord =>
        RecordOp(line[q..], line);
      case WordCmd(s) =>
        WordOp(line, q + 1, s);
      case DumpCmd =>
        DumpOp(line, q + 1);
      case ModifyCmd =>
        output := output + [NotImplemented];
      case GoCmd =>
        GoOp(line, q + 1);
      case ZeroCmd =>
        ZeroOp(line, q + 1);
      case HelpCmd =>
        output := output + [HelpText];
      case Unknown =>
        output := output + [What];
    }

    /** The effect of handler c on the line whose command character is at q. */
    twostate predicate Dispatched(line: seq<char>, q: nat, c: Command)
      requires old(Valid()) && Valid()
      reads this, mem, loader
    {
      match c
      case Nothing => Printed([])
      case SRecord => q < |line| && RecordDone(line[q..], line)
      case WordCmd(s) => WordDone(WordParse(line, q + 1, s), s)
      case DumpCmd => DumpDone(DumpParse(line, q + 1))
      case ModifyCmd => Printed([NotImplemented])
      case GoCmd => GoDone(GoParse(line, q + 1))
      case ZeroCmd => ZeroDone(ZeroParse(line, q + 1))
      case HelpCmd => Printed([HelpText])
      case Unknown => Printed([What])
    }

    /**
     * The S case of monitor(): the record is handed to process_s_record with
     * poke8 as the callback, and the result code selects the message, which
     * quotes the whole line.
     */
    method RecordOp(rec: seq<char>, line: seq<char>)
      requires Valid()
      modifies this, mem, loader
      ensures Valid() && RecordDone(rec, line)
    {
      var code, pokes := loader.ProcessSRecord(rec);
      ApplyPokes(pokes);
      if code == SREC_EOF {
        output := output + [EndOfRecords];
      } else if code < 0 {
        output := output + [BadRecord(CString(line))];
      }
    }

    /** The effect of an S line: its pokes, its message and the loader's counters. */
    twostate predicate RecordDone(rec: seq<char>, line: seq<char>)
      requires old(Valid())
      reads this, mem, loader
    {
      var d := Decode(rec);
      output == old(output) + RecordMessages(d.code, line) && launches == old(launches) &&
      mem.cells == Applied(old(mem.cells), d.pokes, 0) &&
      mem.stores == old(mem.stores) + ByteStores(d.pokes, 0) &&
      (At(rec, 1) == '0' ==> loader.goodCount == 1 && loader.badCount == 0) &&
      (At(rec, 1) != '0' && d.code >= 0 ==>
        loader.goodCount == old(loader.goodCount) + 1 && loader.badCount == old(loader.badCount)) &&
      (At(rec, 1) != '0' && d.code < 0 ==>
        loader.badCount == old(loader.badCount) + 1 && loader.goodCount == old(loader.goodCount))
    }

    /** The poke callback of process_s_record, called once per data byte in order. */
    method ApplyPokes(pokes: seq<Poke>)
      requires mem.Valid()
      modifies mem
      ensures mem.Valid()
      ensures mem.cells == Applied(old(mem.cells), pokes, 0)
      ensures mem.stores == old(mem.stores) + ByteStores(pokes, 0)
    {
      ghost var m0, log := mem.cells, mem.stores;
      for i := 0 to |pokes|
        invariant Applying(m0, log, pokes, i)
      {
        PokeNext(m0, log, pokes, i);
      }
    }

    /** Part-way through the pokes: the first i are done, the rest would give the final memory. */
    ghost predicate Applying(m0: map<Addr, Byte>, log: seq<StoreOp>, pokes: seq<Poke>, i: nat)
      reads mem
    {
      mem.Valid() && Total(m0) &&
      Applied(mem.cells, pokes, i) == Applied(m0, pokes, 0) &&
      mem.stores + ByteStores(pokes, i) == log + ByteStores(pokes, 0)
    }

    /** One call of the poke callback. */
    method PokeNext(ghost m0: map<Addr, Byte>, ghost log: seq<StoreOp>, pokes: seq<Poke>, i: nat)
      requires Applying(m0, log, pokes, i) && i < |pokes|
      modifies mem
      ensures Applying(m0, log, pokes, i + 1)
    {
      StoreByte(mem.cells, pokes[i].addr, pokes[i].value);
      mem.Poke(pokes[i].addr, 1, pokes[i].value);
    }

    /**
     * word_op(s, p): a bad or misaligned address or value is reported; the
     * read form shows the cell and writes nothing; the write form sets
     * exactly the s-byte cell at the address and prints nothing.
     */
    method WordOp(line: seq<char>, p0: nat, s: Width)
      requires Valid()
      modifies this, mem
      ensures Valid()
      ensures WordDone(WordParse(line, p0, s), s)
    {
      WordAct(WordParse(line, p0, s), s);
    }

    /** The effect of a parsed word_op line. */
    twostate predicate WordDone(w: WordAction, s: Width)
      requires old(Valid()) && Valid()
      requires w.WordShow? || w.WordSet? ==> w.addr + s <= ADDR_LIMIT
      reads this, mem, loader
    {
      match w
      case WordHow => Printed([How])
      case WordSilent => Printed([])
      case WordShow(a) => Printed([CellValue(a, s, mem.Peek(a, s))])
      case WordSet(a, v) =>
        output == old(output) && launches == old(launches) &&
        mem.cells == Store(old(mem.cells), a, s, v) && mem.Peek(a, s) == v &&
        mem.stores == old(mem.stores) + [StoreOp(a, s)] &&
        loader.goodCount == old(loader.goodCount) && loader.badCount == old(loader.badCount)
    }

    /** Carries out what a word_op line asks for. */
    method WordAct(w: WordAction, s: Width)
      requires Valid()
      requires w.WordShow? ==> w.addr + s <= ADDR_LIMIT
      requires w.WordSet? ==> w.addr + s <= ADDR_LIMIT && w.value < Pow(256, s)
      modifies this, mem
      ensures Valid() && WordDone(w, s)
    {
      match w
      case WordHow =>
        output := output + [How];
      case WordSilent =>
      case WordShow(a) =>
        output := output + [CellValue(a, s, mem.Peek(a, s))];
      case WordSet(a, v) =>
        mem.Poke(a, s, v);
        DivModUnique(v, Pow(256, s), 0, v);
        assert mem.cells == Store(old(mem.cells), a, s, v);
    }

    /**
     * go_op(p): releases the other cores and then calls the code itself, or
     * starts only the core named; a bad line or core starts nothing.
     */
    method GoOp(line: seq<char>, p0: nat)
      requires Valid()
      modifies this
      ensures Valid() && GoDone(GoParse(line, p0))
    {
      GoAct(GoParse(line, p0));
    }

    /** The effect of a parsed go_op line: its message and its launches, nothing else. */
    twostate predicate GoDone(g: GoAction)
      reads this, mem, loader
    {
      output == old(output) + GoMessages(g) && launches == old(launches) + LaunchesOf(g) &&
      mem.cells == old(mem.cells) && mem.stores == old(mem.stores) &&
      loader.goodCount == old(loader.goodCount) && loader.badCount == old(loader.badCount)
    }

    /** Carries out what a go_op line asks for. */
    method GoAct(g: GoAction)
      modifies this
      ensures output == old(output) + GoMessages(g) && launches == old(launches) + LaunchesOf(g)
    {
      match g
      case GoHow =>
        output := output + [How];
      case GoSorry =>
        output := output + [Sorry];
      case GoCore(a, c) =>
        if c == 0 {
          launches := launches + [Go(a)];
        } else {
          launches := launches + [Release(c, a)];
        }
      case GoAll(a) =>
        launches := launches + [Release(1, a)];
        launches := launches + [Release(2, a)];
        launches := launches + [Release(3, a)];
        launches := launches + [Go(a)];
    }

    /**
     * dump_op(p): a bad line is reported; otherwise the rows of the dump are
     * printed, and memory is only read.
     */
    method DumpOp(line: seq<char>, p0: nat)
      requires Valid()
      modifies this
      ensures Valid() && DumpDone(DumpParse(line, p0))
    {
      match DumpParse(line, p0)
      case DumpHow =>
        output := output + [How];
      case DumpSorry =>
        output := output + [Sorry];
      case DumpRun(a, l, s) =>
        var rows := DumpWalk(a, l, s);
        output := output + rows;
    }

    /** The effect of a parsed dump_op line: only output. */
    twostate predicate DumpDone(d: DumpAction)
      requires Valid()
      requires d.DumpRun? ==> Aligned(d.addr, d.size)
      reads this, mem, loader
    {
      match d
      case DumpHow => Printed([How])
      case DumpSorry => Printed([Sorry])
      case DumpRun(a, l, s) => Printed(DumpRows(mem.cells, a, s, l, MonStdio.AsWritten))
    }

    /** The outer loop of dump_op: one row per pass while cells are left. */
    method DumpWalk(a0: Addr, l0: int, s: Width) returns (rows: seq<Message>)
      requires Valid() && Aligned(a0, s)
      ensures rows == DumpRows(mem.cells, a0, s, l0, MonStdio.AsWritten)
    {
      ghost var m := mem.cells;
      ghost var whole := DumpRows(m, a0, s, l0, MonStdio.AsWritten);
      var a, l := a0, l0;
      rows := [];
      while l > 0
        invariant Aligned(a, s)
        invariant rows + DumpRows(m, a, s, l, MonStdio.AsWritten) == whole
        decreases l
      {
        var ca := a;
        ghost var l1 := l;
        var cells;
        cells, a, l := ReadRow(a, s, l);
        var ascii := [];
        if s == 1 {
          ascii := TextColumn(ca, a);
        }
        var row := DumpRow(ca, cells, ascii);
        ghost var rest := DumpRows(m, a, s, l, MonStdio.AsWritten);
        assert DumpRows(m, ca, s, l1, MonStdio.AsWritten) == [row] + rest by {
          DumpRowsStep(m, ca, s, l1, MonStdio.AsWritten);
        }
        AppendAssoc(rows, [row], rest);
        rows := rows + [row];
      }
    }

    /** The inner loop of dump_op: up to 16 bytes of cells, moving a on with wrap-around. */
    method ReadRow(a0: Addr, s: Width, l0: int) returns (cells: seq<nat>, a: Addr, l: int)
      requires Valid() && Aligned(a0, s)
      ensures Row(mem.cells, a0, s, 16, l0) == RowEnd(cells, a, l)
    {
      var i := 16;
      a, l := a0, l0;
      cells := [];
      while i > 0 && l > 0
        invariant Aligned(a, s)
        invariant Resumed(cells, Row(mem.cells, a, s, i, l)) == Row(mem.cells, a0, s, 16, l0)
        decreases i
      {
        RowStep(mem.cells, cells, a, s, i, l);
        cells := cells + [mem.Peek(a, s)];
        a := (a + s) % ADDR_LIMIT;
        i := i - s;
        l := l - s;
      }
    }

    /** The text column loop of dump_op: a character per byte from ca up to a. */
    method TextColumn(ca0: Addr, a: Addr) returns (text: seq<char>)
      requires Valid()
      ensures text == Dots(mem.cells, ca0, a)
    {
      var ca: Addr := ca0;
      text := [];
      while ca < a
        invariant ca0 <= ca && (ca0 < a ==> ca <= a)
        invariant text + Dots(mem.cells, ca, a) == Dots(mem.cells, ca0, a)
        decreases a - ca
      {
        var c := mem.Peek(ca, 1);
        assert [Dot(c)] + Dots(mem.cells, ca + 1, a) == Dots(mem.cells, ca, a);
        text := text + [Dot(c)];
        ca := ca + 1;
      }
    }

    /**
     * zero_op(p): a bad line is reported; otherwise exactly the bytes of
     * [start, end) become zero, through stores ZeroStore allows.
     */
    method ZeroOp(line: seq<char>, p0: nat)
      requires Valid()
      modifies this, mem
      ensures Valid() && ZeroDone(ZeroParse(line, p0))
    {
      match ZeroParse(line, p0)
      case ZeroHow =>
        output := output + [How];
      case ZeroRange(s, e) =>
        ghost var ops := ZeroFill(s, e);
    }

    /**
     * The effect of a parsed zero_op line: the message, or the range cleared
     * by stores zero_op may issue.
     */
    twostate predicate ZeroDone(z: ZeroAction)
      requires old(Valid())
      reads this, mem, loader
    {
      match z
      case ZeroHow => Printed([How])
      case ZeroRange(s, e) =>
        output == old(output) && launches == old(launches) &&
        mem.cells == Cleared(old(mem.cells), s, e) &&
        |old(mem.stores)| <= |mem.stores| && mem.stores[..|old(mem.stores)|] == old(mem.stores) &&
        ZeroStores(mem.stores[|old(mem.stores)|..], s, e) &&
        loader.goodCount == old(loader.goodCount) && loader.badCount == old(loader.badCount)
    }

    /**
     * The three loops of zero_op: bytes up to the first multiple of 8, then
     * 8-byte stores up to e & ~7, then bytes up to e. The first two run only
     * when the start is below e & ~7.
     */
    method ZeroFill(s0: Addr, e: Addr) returns (ghost ops: seq<StoreOp>)
      requires Valid() && s0 <= e
      modifies mem
      ensures Valid()
      ensures mem.cells == Cleared(old(mem.cells), s0, e)
      ensures mem.stores == old(mem.stores) + ops && ZeroStores(ops, s0, e)
    {
      ghost var m0 := mem.cells;
      ghost var log := mem.stores;
      ops := [];
      var s := s0;
      var l := QuadLimit(e);
      if s < l {
        s, ops := ZeroHead(m0, log, ops, s0, e, s);
        s, ops := ZeroQuads(m0, log, ops, s0, e, s);
      }
      s, ops := ZeroTail(m0, log, ops, s0, e, s);
    }

    /** The first loop of zero_op: single bytes up to a multiple of 8. */
    method ZeroHead(ghost m0: map<Addr, Byte>, ghost log: seq<StoreOp>, ghost ops0: seq<StoreOp>,
                    s0: Addr, e: Addr, s1: Addr) returns (s: Addr, ghost ops: seq<StoreOp>)
      requires s0 <= s1 < QuadLimit(e) && Zeroing(m0, log, ops0, s0, e, s1)
      modifies mem
      ensures s1 <= s <= QuadLimit(e) && s % 8 == 0 && Zeroing(m0, log, ops, s0, e, s)
    {
      s, ops := s1, ops0;
      while s % 8 != 0
        invariant s1 <= s <= QuadLimit(e) && Zeroing(m0, log, ops, s0, e, s)
        decreases QuadLimit(e) - s
      {
        ops := ZeroCell(m0, log, ops, s0, e, s, 1);
        s := s + 1;
      }
    }

    /** The second loop of zero_op: 8-byte stores up to e & ~7. */
    method ZeroQuads(ghost m0: map<Addr, Byte>, ghost log: seq<StoreOp>, ghost ops0: seq<StoreOp>,
                     s0: Addr, e: Addr, s1: Addr) returns (s: Addr, ghost ops: seq<StoreOp>)
      requires s0 <= s1 <= QuadLimit(e) && s1 % 8 == 0 && Zeroing(m0, log, ops0, s0, e, s1)
      modifies mem
      ensures s == QuadLimit(e) && Zeroing(m0, log, ops, s0, e, s)
    {
      s, ops := s1, ops0;
      var l := QuadLimit(e);
      while s < l
        invariant s1 <= s <= l && s % 8 == 0 && Zeroing(m0, log, ops, s0, e, s)
        decreases l - s
      {
        assert s + 8 <= l by {
          assert s == 8 * (s / 8) && l == 8 * (l / 8);
        }
        ops := ZeroCell(m0, log, ops, s0, e, s, 8);
        s := s + 8;
      }
    }

    /** The last loop of zero_op: single bytes up to e. */
    method ZeroTail(ghost m0: map<Addr, Byte>, ghost log: seq<StoreOp>, ghost ops0: seq<StoreOp>,
                    s0: Addr, e: Addr, s1: Addr) returns (s: Addr, ghost ops: seq<StoreOp>)
      requires s0 <= s1 <= e && Zeroing(m0, log, ops0, s0, e, s1)
      modifies mem
      ensures s == e && Zeroing(m0, log, ops, s0, e, s)
    {
      s, ops := s1, ops0;
      while s < e
        invariant s1 <= s <= e && Zeroing(m0, log, ops, s0, e, s)
        decreases e - s
      {
        ops := ZeroCell(m0, log, ops, s0, e, s, 1);
        s := s + 1;
      }
    }

    /**
     * The state part-way through zero_op: the bytes of [s0, s) of the
     * memory m0 are zero, and the stores issued since log are ops.
     */
    ghost predicate Zeroing(m0: map<Addr, Byte>, log: seq<StoreOp>, ops: seq<StoreOp>, s0: Addr, e: Addr, s: nat)
      reads mem
    {
      mem.Valid() && mem.cells == Cleared(m0, s0, s) &&
      mem.stores == log + ops && ZeroStores(ops, s0, e)
    }

    /** One store of zero_op: poke8(s, 0) or poke64(s, 0). */
    method ZeroCell(ghost m0: map<Addr, Byte>, ghost log: seq<StoreOp>, ghost ops: seq<StoreOp>,
                    s0: Addr, e: Addr, s: Addr, w: Width) returns (ghost ops': seq<StoreOp>)
      requires Zeroing(m0, log, ops, s0, e, s) && s0 <= s && ZeroStore(StoreOp(s, w), s0, e)
      modifies mem
      ensures Zeroing(m0, log, ops', s0, e, s + w)
    {
      ClearMore(m0, s0, s, w);
      mem.Poke(s, w, 0);
      ops' := ops + [StoreOp(s, w)];
    }
  }
}
