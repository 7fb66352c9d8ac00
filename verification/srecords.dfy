/**
 * The S-record decoder of c/mon-srec.c. One call decodes one line of the
 * Motorola S-record format: 'S', a type digit, a two-digit byte count, then
 * count bytes as hex pairs (address, data, checksum). Data records (S1, S2,
 * S3) are checked for length, hex-only payload and checksum, and only then
 * hand their data bytes to the poke callback; count records (S5, S6) and
 * the header (S0) are accepted; S7/S8/S9 end the file.
 *
 * The poke callback is modelled by the ordered list of its invocations,
 * which the caller replays against memory.
 */
module SRecords {
  import opened MonitorDefs

  /** One invocation of the poke callback: write value at addr. */
  datatype Poke = Poke(addr: Addr, value: Byte)

  /** What one line decodes to: the result code and the callback invocations. */
  datatype Decoded = Decoded(code: int, pokes: seq<Poke>)

  predicate IsDataType(t: char)
  {
    t == '1' || t == '2' || t == '3'
  }

  /** Hex digits in the address field: 4 for S1, 6 for S2, 8 for S3. */
  function AddrDigits(t: char): nat
  {
    if t == '3' then 8 else if t == '2' then 6 else 4
  }

  /** Positions i and i + 1 both hold hexadecimal digits. */
  predicate IsHexPair(line: seq<char>, i: nat)
  {
    IsXDigit(At(line, i)) && IsXDigit(At(line, i + 1))
  }

  /** The byte written as the two hexadecimal digits at i. */
  function PairByte(line: seq<char>, i: nat): Byte
    requires IsHexPair(line, i)
  {
    16 * DigitValue(At(line, i)) + DigitValue(At(line, i + 1))
  }

  /** The sum of the n bytes written as hex pairs from p. */
  function PairSum(line: seq<char>, p: nat, n: nat): nat
    requires HexDigitsAt(line, p, 2 * n)
  {
    if n == 0 then 0 else PairSum(line, p, n - 1) + PairByte(line, p + 2 * (n - 1))
  }

  /**
   * What the checksum loop computes over n pairs from start: their sum, or
   * None as soon as one of them is not two hexadecimal digits.
   */
  function CheckedSum(line: seq<char>, start: nat, n: nat): Option<nat>
  {
    if n == 0 then Some(0)
    else match CheckedSum(line, start, n - 1)
      case None => None
      case Some(s) =>
        var q := start + 2 * (n - 1);
        if IsHexPair(line, q) then Some(s + PairByte(line, q)) else None
  }

  /** The checksum loop succeeds exactly on an all-hex payload, with the sum of its bytes. */
  lemma {:induction false} CheckedSumMeaning(line: seq<char>, start: nat, n: nat)
    ensures CheckedSum(line, start, n).Some? <==> HexDigitsAt(line, start, 2 * n)
    ensures CheckedSum(line, start, n).Some? ==> CheckedSum(line, start, n).value == PairSum(line, start, n)
  {
    if n > 0 {
      CheckedSumMeaning(line, start, n - 1);
      HexDigitsSplit(line, start, 2 * (n - 1), 2);
      if !IsXDigit(At(line, start + 2 * (n - 1))) {
        assert !HexDigitsAt(line, start, 2 * n);
      }
    }
  }

  /** Once a pair fails, the loop's result stays None however many pairs follow. */
  lemma {:induction false} CheckedSumFailureStays(line: seq<char>, start: nat, i: nat, n: nat)
    requires i <= n && CheckedSum(line, start, i) == None
    ensures CheckedSum(line, start, n) == None
    decreases n - i
  {
    if i < n {
      CheckedSumFailureStays(line, start, i + 1, n);
    }
  }

  /** The byte-count field, read by gethex(&p, 2) at line[2]. */
  function CountField(line: seq<char>): HexParse
  {
    GetHex(line, 2, 2)
  }

  /** Where the checksum loop starts: just past the count digits that were read. */
  function PayloadStart(line: seq<char>): nat
  {
    match CountField(line).next
    case Some(q) => q
    case None => 2
  }

  lemma AddrFieldFits(addrlen: nat)
    requires addrlen <= 8
    ensures Pow(16, addrlen) <= 0x1_0000_0000
  {
    PowMonotone(16, addrlen, 8);
    assert Pow(16, 4) == 0x1_0000;
    assert Pow(16, 8) == 0x1_0000_0000 by {
      assert Pow(16, 6) == 0x100_0000;
    }
  }

  /** The invocations for n bytes written as hex pairs from p, poked from addr on. */
  function PokeRun(line: seq<char>, p: nat, addr: nat, n: nat): (r: seq<Poke>)
    requires HexDigitsAt(line, p, 2 * n) && addr + n <= ADDR_LIMIT
    ensures |r| == n
  {
    if n == 0 then []
    else
      var q := p + 2 * (n - 1);
      assert IsXDigit(At(line, q)) && IsXDigit(At(line, q + 1));
      PokeRun(line, p, addr, n - 1) + [Poke(addr + n - 1, PairByte(line, q))]
  }

  /** Element k of a run: the byte of pair k, at addr + k. */
  lemma {:induction false} PokeRunAt(line: seq<char>, p: nat, addr: nat, n: nat, k: nat)
    requires HexDigitsAt(line, p, 2 * n) && addr + n <= ADDR_LIMIT && k < n
    ensures IsHexPair(line, p + 2 * k)
    ensures PokeRun(line, p, addr, n)[k] == Poke(addr + k, PairByte(line, p + 2 * k))
  {
    if k < n - 1 {
      PokeRunAt(line, p, addr, n - 1, k);
    }
  }

  /**
   * The callback invocations of a record that passed every check: one per
   * data byte, at consecutive addresses from the address field.
   */
  function DataPokes(line: seq<char>, addrlen: nat, count: nat): (r: seq<Poke>)
    requires addrlen == 4 || addrlen == 6 || addrlen == 8
    requires 3 <= count < 256 && HexDigitsAt(line, 4, 2 * count)
    ensures |r| == if count - 1 - addrlen / 2 > 0 then count - 1 - addrlen / 2 else 0
  {
    var n := count - 1 - addrlen / 2;
    if n <= 0 then []
    else
      AddrFieldFits(addrlen);
      HexDigitsSplit(line, 4, addrlen, 2 * n);
      PokeRun(line, 4 + addrlen, GetHex(line, 4, addrlen).value, n)
  }

  /** Element k of the data pokes: the byte of the k-th pair after the address, at address + k. */
  lemma DataPokesAt(line: seq<char>, addrlen: nat, count: nat, k: nat)
    requires addrlen == 4 || addrlen == 6 || addrlen == 8
    requires 3 <= count < 256 && HexDigitsAt(line, 4, 2 * count)
    requires k < |DataPokes(line, addrlen, count)|
    ensures IsHexPair(line, 4 + addrlen + 2 * k)
    ensures DataPokes(line, addrlen, count)[k] ==
      Poke(GetHex(line, 4, addrlen).value + k, PairByte(line, 4 + addrlen + 2 * k))
  {
    var n := count - 1 - addrlen / 2;
    AddrFieldFits(addrlen);
    HexDigitsSplit(line, 4, addrlen, 2 * n);
    PokeRunAt(line, 4 + addrlen, GetHex(line, 4, addrlen).value, n, k);
  }

  /** A data record of the given address width. */
  function DecodeData(line: seq<char>, addrlen: nat): (r: Decoded)
    requires addrlen == 4 || addrlen == 6 || addrlen == 8
  {
    var len := CStrLen(line);
    var count := CountField(line).value;
    if len < 10 || count < 3 || len < 2 * count + 4 then Decoded(SREC_BADLEN, [])
    else match CheckedSum(line, PayloadStart(line), count)
      case None => Decoded(SREC_NONHEX, [])
      case Some(sum) =>
        if (count + sum) % 256 != 0xff then Decoded(SREC_BADCK, [])
        else
          CheckedSumMeaning(line, PayloadStart(line), count);
          assert PayloadStart(line) == 4 by {
            assert IsXDigit(At(line, PayloadStart(line)));
          }
          Decoded(SREC_OK, DataPokes(line, addrlen, count))
  }

  /**
   * The outcome of process_s_record on a line whose 'S' is at line[0]:
   * the result code and the pokes, in order.
   */
  function Decode(line: seq<char>): (r: Decoded)
    ensures r.code in {SREC_OK, SREC_EOF, SREC_BADTYP, SREC_BADLEN, SREC_NONHEX, SREC_BADCK}
    ensures r.code != SREC_OK || !IsDataType(At(line, 1)) ==> r.pokes == []
  {
    var t := At(line, 1);
    if IsDataType(t) then DecodeData(line, AddrDigits(t))
    else if t == '5' || t == '6' || t == '0' then Decoded(SREC_OK, [])
    else if t == '7' || t == '8' || t == '9' then Decoded(SREC_EOF, [])
    else Decoded(SREC_BADTYP, [])
  }

  /** Record types other than data records: which code each gets. */
  lemma NonDataRecords(line: seq<char>)
    requires !IsDataType(At(line, 1))
    ensures Decode(line).pokes == []
    ensures Decode(line).code == SREC_OK <==> At(line, 1) in {'0', '5', '6'}
    ensures Decode(line).code == SREC_EOF <==> At(line, 1) in {'7', '8', '9'}
    ensures Decode(line).code == SREC_BADTYP <==> At(line, 1) !in {'0', '5', '6', '7', '8', '9'}
  {
  }

  /**
   * The error rules of a data record, in the order they are checked: the
   * length rule, then hex-only payload, then the checksum.
   */
  lemma DataRecordErrors(line: seq<char>)
    requires IsDataType(At(line, 1))
    ensures var len, count := CStrLen(line), CountField(line).value;
      var badLen := len < 10 || count < 3 || len < 2 * count + 4;
      && (Decode(line).code == SREC_BADLEN <==> badLen)
      && (Decode(line).code == SREC_NONHEX <==>
           !badLen && !HexDigitsAt(line, PayloadStart(line), 2 * count))
      && (Decode(line).code == SREC_BADCK <==>
           !badLen && HexDigitsAt(line, PayloadStart(line), 2 * count) &&
           (count + PairSum(line, PayloadStart(line), count)) % 256 != 0xff)
      && Decode(line).code != SREC_EOF && Decode(line).code != SREC_BADTYP
  {
    var len, count := CStrLen(line), CountField(line).value;
    var r := DecodeData(line, AddrDigits(At(line, 1)));
    assert Decode(line) == r;
    CheckedSumMeaning(line, PayloadStart(line), count);
    if len < 10 || count < 3 || len < 2 * count + 4 {
      assert r.code == SREC_BADLEN;
    } else if !HexDigitsAt(line, PayloadStart(line), 2 * count) {
      assert r.code == SREC_NONHEX;
    } else if (count + PairSum(line, PayloadStart(line), count)) % 256 != 0xff {
      assert r.code == SREC_BADCK;
    } else {
      assert r.code == SREC_OK;
    }
  }

  /** gethex(&p, 2) on two hexadecimal digits: their byte, and the cursor two further on. */
  method ReadPair(line: seq<char>, p: nat) returns (h: HexParse)
    requires IsHexPair(line, p)
    ensures h.value == PairByte(line, p) && h.next == Some(p + 2)
  {
    GetHexPair(line, p);
    h := GetHex(line, p, 2);
  }

  /**
   * The checksum loop of process_s_record: reads n pairs from start with
   * gethex(&p, 2), adding up their bytes, and gives up at the first pair
   * that is not two hexadecimal digits (the NONHEX exit).
   */
  method SumPairs(line: seq<char>, start: nat, n: nat) returns (sum: Option<nat>)
    ensures sum == CheckedSum(line, start, n)
  {
    var p := start;
    var total := 0;
    var i := 0;
    while i < n
      invariant 0 <= i <= n && p == start + 2 * i
      invariant CheckedSum(line, start, i) == Some(total)
    {
      if !IsHexPair(line, p) {
        assert CheckedSum(line, start, i + 1) == None;
        CheckedSumFailureStays(line, start, i + 1, n);
        return None;
      }
      var h := ReadPair(line, p);
      total := total + h.value;
      p := h.next.value;
      i := i + 1;
    }
    return Some(total);
  }

  /**
   * The data loop of process_s_record: while slen > 0, hands the byte of the
   * next pair to the poke callback at addr, then moves both on by one.
   */
  method PokeLoop(line: seq<char>, p: Option<nat>, addr: nat, slen: int) returns (pokes: seq<Poke>)
    requires slen > 0 ==> p.Some? && HexDigitsAt(line, p.value, 2 * slen) && addr + slen <= ADDR_LIMIT
    ensures slen <= 0 ==> pokes == []
    ensures slen > 0 ==> pokes == PokeRun(line, p.value, addr, slen)
  {
    var q := p;
    var a := addr;
    var left := slen;
    pokes := [];
    while left > 0
      invariant left <= 0 ==> |pokes| == (if slen > 0 then slen else 0)
      invariant left > 0 ==> |pokes| == slen - left
      invariant slen > 0 ==> pokes == PokeRun(line, p.value, addr, |pokes|)
      invariant a == addr + |pokes|
      invariant left > 0 ==> q == Some(p.value + 2 * |pokes|)
    {
      ghost var i := |pokes|;
      assert IsXDigit(At(line, p.value + 2 * i)) && IsXDigit(At(line, p.value + 2 * i + 1));
      var b := ReadPair(line, q.value);
      pokes := pokes + [Poke(a, b.value)];
      a, left, q := a + 1, left - 1, b.next;
    }
  }

  /**
   * The tail of the data-record branch: re-read the address field from
   * line[4] with gethex(&p, addrlen), then run the data loop over what
   * remains of the count after the address and the checksum byte.
   */
  method DataLoop(line: seq<char>, addrlen: nat, count: nat) returns (pokes: seq<Poke>)
    requires addrlen == 4 || addrlen == 6 || addrlen == 8
    requires 3 <= count < 256 && HexDigitsAt(line, 4, 2 * count)
    ensures pokes == DataPokes(line, addrlen, count)
  {
    var p: Option<nat> := Some(4);
    var slen: int := count;
    var a := GetHex(line, p.value, addrlen);
    AddrFieldFits(addrlen);
    p := a.next;
    slen := slen - (1 + addrlen / 2);
    if slen > 0 {
      HexDigitsSplit(line, 4, addrlen, 2 * slen);
      assert p == Some(4 + addrlen);
    }
    pokes := PokeLoop(line, p, a.value, slen);
  }

  /**
   * The data-record branch of process_s_record (types 1, 2, 3): the length
   * rule, the hex-only checksum loop, the checksum test and then the data
   * loop, returning the record's result code and the poke invocations.
   */
  method ReadDataRecord(line: seq<char>, addrlen: nat) returns (code: int, pokes: seq<Poke>)
    requires addrlen == 4 || addrlen == 6 || addrlen == 8
    ensures Decoded(code, pokes) == DecodeData(line, addrlen)
  {
    var len := StrLen(line);
    var p: Option<nat> := Some(2);
    pokes := [];
    var slen: int := 0;
    var badLen := len < 10;
    if !badLen {
      var h := GetHex(line, 2, 2);
      slen, p := h.value, h.next;
      badLen := slen < 3 || len < 2 * slen + 4;
    }
    if badLen {
      code := SREC_BADLEN;
      return;
    }
    ghost var start := PayloadStart(line);
    assert slen < 256 by {
      assert Pow(16, 2) == 256;
    }
    var sum := SumPairs(line, p.value, slen);
    if sum.None? {
      code := SREC_NONHEX;
      return;
    }
    var ck := slen + sum.value;
    // ck is non-negative, so (ck & 0xff) is ck % 256.
    if ck % 256 != 0xff {
      code := SREC_BADCK;
      return;
    }
    CheckedSumMeaning(line, start, slen);
    assert start == 4 by {
      assert IsXDigit(At(line, start));
    }
    pokes := DataLoop(line, addrlen, slen);
    code := SREC_OK;
  }

  /** The process-wide good_count and bad_count of c/mon-srec.c. */
  class Loader {
    var goodCount: int
    var badCount: int

    constructor ()
      ensures goodCount == 0 && badCount == 0
    {
      goodCount, badCount := 0, 0;
    }

    /**
     * process_s_record. Returns the result code and the poke callback's
     * invocations; apart from the reset by an S0 record, every call adds one
     * to exactly one of the two counters.
     */
    method ProcessSRecord(line: seq<char>) returns (code: int, pokes: seq<Poke>)
      modifies this
      ensures Decoded(code, pokes) == Decode(line)
      ensures At(line, 1) == '0' ==> goodCount == 1 && badCount == 0
      ensures At(line, 1) != '0' && code >= 0 ==>
        goodCount == old(goodCount) + 1 && badCount == old(badCount)
      ensures At(line, 1) != '0' && code < 0 ==>
        badCount == old(badCount) + 1 && goodCount == old(goodCount)
    {
      var addrlen := 4;
      var t := At(line, 1);
      pokes := [];
      // The switch falls through from '3' to '2' to '1', adding two digits per step.
      if t == '3' {
        addrlen := addrlen + 2;
      }
      if t == '3' || t == '2' {
        addrlen := addrlen + 2;
      }
      if IsDataType(t) {
        assert addrlen == AddrDigits(t);
        code, pokes := ReadDataRecord(line, addrlen);
        if code < 0 {
          badCount := badCount + 1;
          return;
        }
      } else if t == '5' || t == '6' {
        // Optional count records: ignored.
      } else if t == '7' || t == '8' || t == '9' {
        goodCount := goodCount + 1;
        code := SREC_EOF;
        return;
      } else if t == '0' {
        goodCount, badCount := 0, 0;
      } else {
        badCount := badCount + 1;
        code := SREC_BADTYP;
        return;
      }
      goodCount := goodCount + 1;
      code := SREC_OK;
    }
  }
}
