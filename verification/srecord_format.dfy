/**
 * The Motorola S-record format as a writer produces it, used as the
 * independent reference for the decoder of c/mon-srec.c: a data record
 * 'S' t, then hex pairs for the byte count, the big-endian address, the
 * data bytes and the checksum (the ones' complement of the low byte of the
 * sum of count, address and data bytes). Digits are written upper case.
 */
module SRecordFormat {
  import opened MonitorDefs
  import opened SRecords
  import MonStdio

  /** The bytes of the address field of a record type: 2, 3 or 4. */
  function AddrBytes(t: char): (m: nat)
    ensures AddrDigits(t) == 2 * m && 2 <= m <= 4
  {
    if t == '3' then 4 else if t == '2' then 3 else 2
  }

  /** The upper-case hex digit of d, as prt16 writes it with the letters "ABCDEF". */
  function HexDigit(d: nat): (c: char)
    requires d < 16
    ensures IsXDigit(c) && DigitValue(c) == d
  {
    MonStdio.CaseLetters();
    MonStdio.HexCharDigit(d, "ABCDEF");
    MonStdio.HexChar(d, "ABCDEF")
  }

  /** Each byte as two hex digits, most significant digit first. */
  function HexBytes(bs: seq<Byte>): (r: seq<char>)
    ensures |r| == 2 * |bs|
  {
    if |bs| == 0 then [] else [HexDigit(bs[0] / 16), HexDigit(bs[0] % 16)] + HexBytes(bs[1..])
  }

  /** A written byte sequence is made of hex digits only. */
  lemma {:induction false} HexBytesAreDigits(bs: seq<Byte>)
    ensures forall i :: 0 <= i < |HexBytes(bs)| ==> IsXDigit(HexBytes(bs)[i])
  {
    if |bs| > 0 {
      HexBytesAreDigits(bs[1..]);
    }
  }

  /** Byte j of bs is written at positions 2j and 2j + 1. */
  lemma {:induction false} HexBytesAt(bs: seq<Byte>, j: nat)
    requires j < |bs|
    ensures HexBytes(bs)[2 * j] == HexDigit(bs[j] / 16)
    ensures HexBytes(bs)[2 * j + 1] == HexDigit(bs[j] % 16)
  {
    if j > 0 {
      HexBytesAt(bs[1..], j - 1);
    }
  }

  /** v as m bytes, most significant first, keeping the low 8m bits. */
  function BigEndian(v: nat, m: nat): (r: seq<Byte>)
    ensures |r| == m
  {
    if m == 0 then [] else BigEndian(v / 256, m - 1) + [v % 256]
  }

  /** The number whose big-endian bytes are bs. */
  function BEValue(bs: seq<Byte>): nat
  {
    if |bs| == 0 then 0 else 256 * BEValue(bs[..|bs| - 1]) + bs[|bs| - 1]
  }

  /** The sum of some bytes. */
  function SumOf(bs: seq<Byte>): nat
  {
    if |bs| == 0 then 0 else SumOf(bs[..|bs| - 1]) + bs[|bs| - 1]
  }

  /** The bytes a checksum covers after the count: address, then data. */
  function Body(t: char, addr: nat, data: seq<Byte>): seq<Byte>
  {
    BigEndian(addr, AddrBytes(t)) + data
  }

  /** The checksum a writer puts on a record whose count is count. */
  function Checksum(count: nat, body: seq<Byte>): (ck: Byte)
    ensures (count + SumOf(body) + ck) % 256 == 0xff
  {
    0xff - (count + SumOf(body)) % 256
  }

  /** The writer's checksum is the only byte that makes the record's sum end in 0xff. */
  lemma ChecksumUnique(count: nat, body: seq<Byte>, ck: Byte)
    ensures (count + SumOf(body) + ck) % 256 == 0xff <==> ck == Checksum(count, body)
  {
    var sum := count + SumOf(body);
    var q, r := sum / 256, sum % 256;
    assert sum + ck == 256 * q + (r + ck);
    if r + ck < 256 {
      DivModUnique(sum + ck, 256, q, r + ck);
    } else {
      DivModUnique(sum + ck, 256, q + 1, r + ck - 256);
    }
  }

  /** A well-formed data record needs a count that fits one byte. */
  predicate Writable(t: char, addr: nat, data: seq<Byte>)
  {
    IsDataType(t) && addr < Pow(256, AddrBytes(t)) && 1 + AddrBytes(t) + |data| <= 0xff
  }

  /** The record's pairs after 'S' t: count, address, data, checksum byte ck. */
  function Fields(t: char, addr: nat, data: seq<Byte>, ck: Byte): seq<Byte>
    requires Writable(t, addr, data)
  {
    [1 + AddrBytes(t) + |data|] + Body(t, addr, data) + [ck]
  }

  /** A data record carrying checksum byte ck, which may or may not be the right one. */
  function RecordLine(t: char, addr: nat, data: seq<Byte>, ck: Byte): seq<char>
    requires Writable(t, addr, data)
  {
    ['S', t] + HexBytes(Fields(t, addr, data, ck))
  }

  /** The record a writer produces for data at addr. */
  function Record(t: char, addr: nat, data: seq<Byte>): seq<char>
    requires Writable(t, addr, data)
  {
    RecordLine(t, addr, data, Checksum(1 + AddrBytes(t) + |data|, Body(t, addr, data)))
  }

  /** The poke invocations that write data at consecutive addresses from addr. */
  function PokesOf(addr: nat, data: seq<Byte>): seq<Poke>
    requires addr + |data| <= ADDR_LIMIT
  {
    seq(|data|, k requires 0 <= k < |data| => Poke(addr + k, data[k]))
  }

  // ---------------------------------------------------------------- lemmas

  /** From p on, the line holds the bytes fs as hex pairs. */
  predicate PairsAre(line: seq<char>, p: nat, fs: seq<Byte>)
    decreases |fs|
  {
    |fs| == 0 ||
    (PairsAre(line, p, fs[..|fs| - 1]) &&
     IsHexPair(line, p + 2 * (|fs| - 1)) && PairByte(line, p + 2 * (|fs| - 1)) == fs[|fs| - 1])
  }

  /** PairsAre holds when every pair is right. */
  lemma {:induction false} PairsAreIntro(line: seq<char>, p: nat, fs: seq<Byte>)
    requires forall j :: 0 <= j < |fs| ==> IsHexPair(line, p + 2 * j) && PairByte(line, p + 2 * j) == fs[j]
    ensures PairsAre(line, p, fs)
    decreases |fs|
  {
    if |fs| > 0 {
      var n := |fs| - 1;
      forall j | 0 <= j < n
        ensures IsHexPair(line, p + 2 * j) && PairByte(line, p + 2 * j) == fs[..n][j]
      {
        assert fs[..n][j] == fs[j];
      }
      PairsAreIntro(line, p, fs[..n]);
    }
  }

  /** Under PairsAre, pair j holds byte j. */
  lemma {:induction false} PairsAreAt(line: seq<char>, p: nat, fs: seq<Byte>, j: nat)
    requires PairsAre(line, p, fs) && j < |fs|
    ensures IsHexPair(line, p + 2 * j) && PairByte(line, p + 2 * j) == fs[j]
    decreases |fs|
  {
    var n := |fs| - 1;
    if j < n {
      PairsAreAt(line, p, fs[..n], j);
      assert fs[..n][j] == fs[j];
    }
  }

  /** A prefix of the bytes is written at the same place. */
  lemma {:induction false} PairsPrefix(line: seq<char>, p: nat, fs: seq<Byte>, n: nat)
    requires PairsAre(line, p, fs) && n <= |fs|
    ensures PairsAre(line, p, fs[..n])
    decreases |fs|
  {
    if n < |fs| {
      var k := |fs| - 1;
      PairsPrefix(line, p, fs[..k], n);
      assert fs[..k][..n] == fs[..n];
    } else {
      assert fs[..n] == fs;
    }
  }

  /** What a written record's hex digits read back as: its count, then its own bytes pair by pair. */
  lemma HexBytesReadBack(line: seq<char>, count: Byte, rest: seq<Byte>)
    requires |line| >= 2 && line[2..] == HexBytes([count] + rest)
    ensures IsHexPair(line, 2) && PairByte(line, 2) == count
    ensures PairsAre(line, 4, rest)
  {
    var fs := [count] + rest;
    HexBytesAt(fs, 0);
    assert At(line, 2) == HexDigit(count / 16) && At(line, 3) == HexDigit(count % 16);
    forall j | 0 <= j < |rest|
      ensures IsHexPair(line, 4 + 2 * j) && PairByte(line, 4 + 2 * j) == rest[j]
    {
      HexBytesAt(fs, j + 1);
      assert At(line, 4 + 2 * j) == HexBytes(fs)[2 * (j + 1)];
      assert At(line, 5 + 2 * j) == HexBytes(fs)[2 * (j + 1) + 1];
    }
    PairsAreIntro(line, 4, rest);
  }

  /** The checksum loop over the pairs from p adds up their bytes. */
  lemma {:induction false} PairsSum(line: seq<char>, p: nat, fs: seq<Byte>)
    requires PairsAre(line, p, fs)
    ensures CheckedSum(line, p, |fs|) == Some(SumOf(fs))
    decreases |fs|
  {
    if |fs| > 0 {
      PairsSum(line, p, fs[..|fs| - 1]);
    }
  }

  /** Two more digits multiply the value read so far by 256 and add their byte. */
  lemma HexValuePair(s: seq<char>, p: nat, n: nat)
    requires HexDigitsAt(s, p, n) && IsHexPair(s, p + n)
    ensures HexDigitsAt(s, p, n + 2)
    ensures HexValueAt(s, p, n + 2) == 256 * HexValueAt(s, p, n) + PairByte(s, p + n)
  {
    HexDigitsSplit(s, p, n, 2);
    assert HexValueAt(s, p, n + 1) == 16 * HexValueAt(s, p, n) + DigitValue(At(s, p + n));
  }

  /** The value of the 2|fs| digits from p is the big-endian value of fs. */
  lemma {:induction false} PairsValue(line: seq<char>, p: nat, fs: seq<Byte>)
    requires PairsAre(line, p, fs)
    ensures HexDigitsAt(line, p, 2 * |fs|)
    ensures HexValueAt(line, p, 2 * |fs|) == BEValue(fs)
    decreases |fs|
  {
    if |fs| > 0 {
      var n := |fs| - 1;
      PairsValue(line, p, fs[..n]);
      HexValuePair(line, p, 2 * n);
    }
  }

  /** A run of max hex digits is read in full. */
  lemma {:induction false} FullRun(s: seq<char>, p: nat, max: nat)
    requires HexDigitsAt(s, p, max)
    ensures HexRun(s, p, max) == max
    decreases max
  {
    if max > 0 {
      FullRun(s, p + 1, max - 1);
    }
  }

  /** Big-endian bytes read back as the value truncated to their width. */
  lemma {:induction false} BEValueOfBigEndian(v: nat, m: nat)
    ensures BEValue(BigEndian(v, m)) == v % Pow(256, m)
  {
    if m > 0 {
      var r := BigEndian(v, m);
      assert r[..m - 1] == BigEndian(v / 256, m - 1);
      BEValueOfBigEndian(v / 256, m - 1);
      ModSplit(v, Pow(256, m - 1));
      assert 256 * Pow(256, m - 1) == Pow(256, m);
    }
  }

  /** A record made only of 'S', a type digit and hex digits has no terminator inside. */
  lemma RecordLength(line: seq<char>, fs: seq<Byte>)
    requires |line| >= 2 && line[0] == 'S' && IsDataType(line[1]) && line[2..] == HexBytes(fs)
    ensures CStrLen(line) == |line| == 2 + 2 * |fs|
  {
    HexBytesAreDigits(fs);
    forall k | 2 <= k < |line|
      ensures line[k] != NUL
    {
      assert line[k] == HexBytes(fs)[k - 2];
    }
  }

  /** The count field of such a line is read as its first pair, and the payload starts at 4. */
  lemma WellFormedCount(line: seq<char>)
    requires IsHexPair(line, 2)
    ensures CountField(line).value == PairByte(line, 2) && PayloadStart(line) == 4
  {
    GetHexPair(line, 2);
  }

  /** The address field of such a line is the big-endian value of the m bytes after the count. */
  lemma WellFormedAddress(line: seq<char>, body: seq<Byte>, m: nat)
    requires PairsAre(line, 4, body) && 2 <= m <= 4 && m <= |body|
    ensures GetHex(line, 4, 2 * m).value == BEValue(body[..m]) < 0x1_0000_0000
  {
    PairsPrefix(line, 4, body, m);
    PairsValue(line, 4, body[..m]);
    FullRun(line, 4, 2 * m);
    Pow16Twice(m);
    AddrFieldFits(2 * m);
  }

  /** Any run of the bytes, from i to j, is written from position p + 2i. */
  lemma PairsSlice(line: seq<char>, p: nat, fs: seq<Byte>, i: nat, j: nat)
    requires PairsAre(line, p, fs) && i <= j <= |fs|
    ensures PairsAre(line, p + 2 * i, fs[i..j])
  {
    forall k | 0 <= k < j - i
      ensures IsHexPair(line, p + 2 * i + 2 * k) && PairByte(line, p + 2 * i + 2 * k) == fs[i..j][k]
    {
      PairsAreAt(line, p, fs, i + k);
      assert p + 2 * (i + k) == p + 2 * i + 2 * k;
    }
    PairsAreIntro(line, p + 2 * i, fs[i..j]);
  }

  /** The data loop over pairs holding fs pokes exactly fs, one address after another. */
  lemma {:induction false} PokeRunOfPairs(line: seq<char>, p: nat, addr: nat, fs: seq<Byte>)
    requires PairsAre(line, p, fs) && addr + |fs| <= ADDR_LIMIT
    ensures HexDigitsAt(line, p, 2 * |fs|)
    ensures PokeRun(line, p, addr, |fs|) == PokesOf(addr, fs)
    decreases |fs|
  {
    if |fs| > 0 {
      var n := |fs| - 1;
      PokeRunOfPairs(line, p, addr, fs[..n]);
      HexDigitsSplit(line, p, 2 * n, 2);
      assert PokesOf(addr, fs) == PokesOf(addr, fs[..n]) + [Poke(addr + n, fs[n])];
    }
  }

  /** The data loop of such a line pokes the bytes after the address, one per address. */
  lemma WellFormedPokes(line: seq<char>, body: seq<Byte>, m: nat)
    requires PairsAre(line, 4, body) && 2 <= m <= 4 && m + 1 <= |body| < 256
    requires HexDigitsAt(line, 4, 2 * |body|)
    ensures BEValue(body[..m]) < 0x1_0000_0000
    ensures DataPokes(line, 2 * m, |body|) == PokesOf(BEValue(body[..m]), body[m..|body| - 1])
  {
    WellFormedAddress(line, body, m);
    var data := body[m..|body| - 1];
    PairsSlice(line, 4, body, m, |body| - 1);
    PokeRunOfPairs(line, 4 + 2 * m, BEValue(body[..m]), data);
  }

  /**
   * The decoder on any line of the form 'S' t, count, then count pairs,
   * where the address fits its field: it accepts exactly when the low byte of
   * the sum of all pairs after 'S' t is 0xff, and then pokes the data bytes
   * at consecutive addresses from the big-endian address field.
   */
  lemma DecodeWellFormed(line: seq<char>, body: seq<Byte>)
    requires IsHexPair(line, 2) && PairByte(line, 2) == |body| && PairsAre(line, 4, body)
    requires IsDataType(At(line, 1)) && CStrLen(line) == 4 + 2 * |body|
    requires 1 + AddrBytes(At(line, 1)) <= |body|
    ensures BEValue(body[..AddrBytes(At(line, 1))]) < 0x1_0000_0000
    ensures Decode(line) ==
      if (|body| + SumOf(body)) % 256 == 0xff
      then Decoded(SREC_OK, PokesOf(BEValue(body[..AddrBytes(At(line, 1))]), body[AddrBytes(At(line, 1))..|body| - 1]))
      else Decoded(SREC_BADCK, [])
  {
    var m, n := AddrBytes(At(line, 1)), |body|;
    WellFormedParts(line, body);
    DataDecodes(line, n, SumOf(body), PokesOf(BEValue(body[..m]), body[m..n - 1]));
  }

  /** The decoder's verdict on a data record whose count, checksum-loop sum and data-loop pokes are known. */
  lemma DataDecodes(line: seq<char>, n: nat, sum: nat, pokes: seq<Poke>)
    requires IsDataType(At(line, 1)) && CStrLen(line) == 4 + 2 * n && 3 <= n < 256
    requires CountField(line).value == n && PayloadStart(line) == 4
    requires CheckedSum(line, 4, n) == Some(sum) && HexDigitsAt(line, 4, 2 * n)
    requires DataPokes(line, AddrDigits(At(line, 1)), n) == pokes
    ensures Decode(line) == if (n + sum) % 256 == 0xff then Decoded(SREC_OK, pokes) else Decoded(SREC_BADCK, [])
  {
  }

  /** What the decoder's loops find on such a line: the count, the checksum sum and the pokes. */
  lemma WellFormedParts(line: seq<char>, body: seq<Byte>)
    requires IsHexPair(line, 2) && PairByte(line, 2) == |body| && PairsAre(line, 4, body)
    requires IsDataType(At(line, 1)) && 1 + AddrBytes(At(line, 1)) <= |body|
    ensures var m, n := AddrBytes(At(line, 1)), |body|;
      && 3 <= n < 256 && BEValue(body[..m]) < 0x1_0000_0000
      && CountField(line).value == n && PayloadStart(line) == 4
      && CheckedSum(line, 4, n) == Some(SumOf(body)) && HexDigitsAt(line, 4, 2 * n)
      && DataPokes(line, AddrDigits(At(line, 1)), n) == PokesOf(BEValue(body[..m]), body[m..n - 1])
  {
    var m := AddrBytes(At(line, 1));
    WellFormedCount(line);
    PairsSum(line, 4, body);
    CheckedSumMeaning(line, 4, |body|);
    WellFormedPokes(line, body, m);
  }

  /** The shape of a written record, as the decoder sees it. */
  lemma RecordShape(t: char, addr: nat, data: seq<Byte>, ck: Byte)
    requires Writable(t, addr, data)
    ensures var line, rest := RecordLine(t, addr, data, ck), Body(t, addr, data) + [ck];
      && At(line, 1) == t && CStrLen(line) == 4 + 2 * |rest|
      && IsHexPair(line, 2) && PairByte(line, 2) == |rest|
      && PairsAre(line, 4, rest)
  {
    var count := 1 + AddrBytes(t) + |data|;
    var fs := Fields(t, addr, data, ck);
    var line := RecordLine(t, addr, data, ck);
    var rest := Body(t, addr, data) + [ck];
    assert fs == [count] + rest;
    assert line[2..] == HexBytes([count] + rest) && At(line, 1) == t;
    RecordLength(line, fs);
    HexBytesReadBack(line, count, rest);
  }

  /** How a written record's bytes after the count split into address, data and checksum. */
  lemma RecordParts(t: char, addr: nat, data: seq<Byte>, ck: Byte)
    requires Writable(t, addr, data)
    ensures var m, body := AddrBytes(t), Body(t, addr, data);
      var rest := body + [ck];
      && BEValue(rest[..m]) == addr
      && rest[m..|rest| - 1] == data
      && SumOf(rest) == SumOf(body) + ck
  {
    var m, body := AddrBytes(t), Body(t, addr, data);
    var rest := body + [ck];
    assert rest[..|body|] == body;
    assert rest[..m] == BigEndian(addr, m);
    BEValueOfBigEndian(addr, m);
    assert rest[m..|rest| - 1] == data;
  }

  /** The decoder's verdict on any line of a written record's shape. */
  lemma DecodeRecordShaped(line: seq<char>, t: char, addr: nat, data: seq<Byte>, ck: Byte)
    requires Writable(t, addr, data)
    requires var rest := Body(t, addr, data) + [ck];
      && At(line, 1) == t && CStrLen(line) == 4 + 2 * |rest|
      && IsHexPair(line, 2) && PairByte(line, 2) == |rest|
      && PairsAre(line, 4, rest)
    ensures addr + |data| <= ADDR_LIMIT
    ensures Decode(line) ==
      if ck == Checksum(1 + AddrBytes(t) + |data|, Body(t, addr, data))
      then Decoded(SREC_OK, PokesOf(addr, data))
      else Decoded(SREC_BADCK, [])
  {
    var body := Body(t, addr, data);
    var rest, m := body + [ck], AddrBytes(t);
    assert BEValue(rest[..m]) == addr && rest[m..|rest| - 1] == data && SumOf(rest) == SumOf(body) + ck by {
      RecordParts(t, addr, data, ck);
    }
    assert (|rest| + SumOf(rest)) % 256 == 0xff <==> ck == Checksum(1 + m + |data|, body) by {
      ChecksumUnique(1 + m + |data|, body, ck);
    }
    assert Decode(line) == if (|rest| + SumOf(rest)) % 256 == 0xff then Decoded(SREC_OK, PokesOf(addr, data)) else Decoded(SREC_BADCK, []) by {
      DecodeWellFormed(line, rest);
    }
  }

  /**
   * A record carrying checksum byte ck decodes to its data, poked at
   * consecutive addresses, exactly when ck is the writer's checksum, and is
   * refused with SREC_BADCK otherwise.
   */
  lemma RecordDecodes(t: char, addr: nat, data: seq<Byte>, ck: Byte)
    requires Writable(t, addr, data)
    ensures addr + |data| <= ADDR_LIMIT
    ensures Decode(RecordLine(t, addr, data, ck)) ==
      if ck == Checksum(1 + AddrBytes(t) + |data|, Body(t, addr, data))
      then Decoded(SREC_OK, PokesOf(addr, data))
      else Decoded(SREC_BADCK, [])
  {
    RecordShape(t, addr, data, ck);
    DecodeRecordShaped(RecordLine(t, addr, data, ck), t, addr, data, ck);
  }

  /** Every record a writer produces decodes to its own data at its own address. */
  lemma RecordRoundTrip(t: char, addr: nat, data: seq<Byte>)
    requires Writable(t, addr, data)
    ensures addr + |data| <= ADDR_LIMIT
    ensures Decode(Record(t, addr, data)) == Decoded(SREC_OK, PokesOf(addr, data))
  {
    RecordDecodes(t, addr, data, Checksum(1 + AddrBytes(t) + |data|, Body(t, addr, data)));
  }
}
