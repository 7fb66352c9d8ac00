# Bare-metal monitor: command interpreter, S-record loader and small stdio

This project models the core of a small bare-metal machine-code monitor for a
64-bit ARM board. The monitor reads a line from the serial console, looks at
its first non-space character and carries out one command:

- `S…` loads one Motorola S-record.
- `B`, `H`, `W` and `Q` show or set a 1-, 2-, 4- or 8-byte cell.
- `D` dumps memory.
- `G` starts code on one core or on all of them.
- `Z` zeroes a range.
- `?` prints the help text.

The model covers four source files:

- **The monitor's shared definitions** (`MonitorDefs`, `MemoryCells`). These are the character classifiers, the C-string helpers, the result codes and byte-addressed memory with peek and poke of 1, 2, 4 and 8 bytes. `MemoryCells.Memory` is a class whose cells are updated in place.
- **The S-record loader** (`SRecords`). Its `process_s_record` is a pure decoder `Decode` from a line to a result code plus the ordered list of byte pokes it issues. The loops of the C function are methods proved against it, and `Loader` is a class holding the good and bad record counters. `SRecordFormat` is an independent writer of S-records, used as the partner for the round-trip theorems: decoding what the writer produces gives back the address and data, and a record is rejected exactly when its checksum is wrong.
- **The monitor loop and its commands** (`Commands`). `Monitor` is a class holding the memory, the loader, the printed output (as a list of message tags) and the launches of code on cores. Each command has two parts: a pure parser (`WordParse`, `DumpParse`, `GoParse`, `ZeroParse`) and a method that carries out its result. The dump and zero loops are methods with invariants.
- **The monitor's stdio** (`MonStdio`). This part covers the line editor `m_gets`, the digit writers `prt10` and `prt16`, and the formatter `m_xprintf`. The formatter is a walk over the format string that consumes arguments. Its pure definition `Format` is partnered with the loop method `XPrintf`.

Memory is a total map from 64-bit addresses to bytes. Cells wider than a byte are read and written little-endian, as on the AArch64 target. Addresses wrap at 2^64 wherever the C code's `memaddr_t` arithmetic wraps.

Where the comments and the code differ, the model follows the code. The header comment and the help text (c/monitor.c:33 and 191) say that "Da,l,s" dumps l words, but dump_op takes s off l for every cell it shows (c/monitor.c:359), so l counts bytes: "D1000,10,8" shows two 8-byte cells. And go_op, unlike dump_op and zero_op, looks for the ',' right after the address without skipping white space (c/monitor.c:396), so "G80000 ,2" starts every core at 80000, not core 2 (`Commands.GoStrayLine`).

## Model

| member | source | states |
|---|---|---|
| MonitorDefs.ResultCodesDistinct | h/monitor.h:68-72 | The OK code is 0 and EOF is 1. The four error codes are negative. All six codes are distinct. |
| MonitorDefs.ClassifierRelations | h/monitor.h:143-168 | A decimal digit is a hex digit and is printable. A hex digit is printable and is not a space. The only printable space is ' '. NUL is neither a space, a hex digit nor printable. Printable means 0x20..0x7e. |
| MonitorDefs.XDigitIsHexAlphabet | h/monitor.h:148-153 | m_isxdigit holds exactly for the characters of "0123456789abcdef" and "0123456789ABCDEF". |
| MonitorDefs.DigitValue | h/monitor.h:90 | The value char2hex gives a hex digit is below 16. |
| MonitorDefs.DigitValueIsIndex | h/monitor.h:90 | A hex digit is the character at its value in the lower-case or the upper-case hex alphabet. |
| MonitorDefs.DigitValueOfAlphabet | h/monitor.h:90 | Every character of either hex alphabet is a hex digit whose value is its position. |
| MonitorDefs.CStrLen | h/monitor.h:170-180 | m_strlen: the terminator is at that index, and no character before it is NUL. |
| MonitorDefs.CString | h/monitor.h:170-180 | The C string held in a buffer is a prefix of it that contains no NUL. |
| MonitorDefs.StrLen | h/monitor.h:170-180 | The counting loop of m_strlen returns the index of the first NUL. |
| MonitorDefs.FirstNonSpace | h/monitor.h:182-187 | m_skipspaces stops at the first non-space at or after p. Everything it passes is a space. It never passes the terminator. |
| MonitorDefs.SkipSpaces | h/monitor.h:182-187 | The loop of m_skipspaces returns that first non-space position. |
| MonitorDefs.HexRun | h/monitor.h:91 | gethex takes at most max hex digits. It stops early only before a character that is not a hex digit. |
| MonitorDefs.HexValueAt | h/monitor.h:91 | n hex digits have a value below 16^n. |
| MonitorDefs.GetHex | h/monitor.h:91 | gethex fails (NULL cursor, value 0) exactly when max is 0 or no hex digit is at p. Otherwise it consumes between 1 and max hex digits, stopping at a non-hex character unless max is reached. Its value is below 16^max and below 2^64. |
| MonitorDefs.GetHexPair | h/monitor.h:91 | Two hex digits read with max 2 give 16·first + second, and the cursor moves on by 2. |
| MemoryCells.Load | h/monitor.h:74-83 | A peek of w bytes is below 256^w. |
| MemoryCells.ByteOfDigit | h/monitor.h:77-83 | The byte a poke of v writes at a + k is v's base-256 digit of weight 256^k, so the store is little-endian. |
| MemoryCells.LoadStoredBytes | h/monitor.h:74-83 | Reading w bytes that hold the bytes of v gives v mod 256^w. |
| MemoryCells.LoadStore | h/monitor.h:74-83 | A peek right after a poke of the same width returns the value truncated to that width. |
| MemoryCells.LoadStoreDisjoint | h/monitor.h:74-83 | A poke leaves every peek of a disjoint range unchanged. |
| MemoryCells.Memory.constructor | h/monitor.h:74-84 | Memory starts with the given total contents and an empty store log. |
| MemoryCells.Memory.Peek | h/monitor.h:74-82 | A peek of width w is below 256^w. |
| MemoryCells.Memory.Poke | h/monitor.h:77-83 | The cells become the old cells with the poke applied. A peek of the cell then reads back v mod 256^w. The store is logged. |
| SRecords.CheckedSumMeaning | c/mon-srec.c:74-84 | The checksum loop succeeds exactly when all 2·n characters are hex digits. Its sum is then the sum of the n pair bytes. |
| SRecords.CheckedSumFailureStays | c/mon-srec.c:74-84 | Once one pair is not hex, the loop fails however many pairs the count asks for. This is the early NONHEX return. |
| SRecords.AddrFieldFits | c/mon-srec.c:90-91 | An address field of at most 8 digits is below 2^32, so the data addresses cannot wrap. |
| SRecords.PokeRun | c/mon-srec.c:95-100 | The data loop issues exactly one poke per remaining byte. |
| SRecords.PokeRunAt | c/mon-srec.c:95-100 | The k-th poke writes the k-th hex pair to address addr + k. |
| SRecords.DataPokes | c/mon-srec.c:90-101 | The number of pokes is count − 1 − addrlen/2 (none when that is not positive). |
| SRecords.DataPokesAt | c/mon-srec.c:90-101 | The k-th data byte, after the address field, is poked at the record's address plus k. |
| SRecords.Decode | c/mon-srec.c:43-127 | The result is one of the six codes. Bytes are poked only by an OK record of type 1, 2 or 3. |
| SRecords.NonDataRecords | c/mon-srec.c:104-122 | For types other than 1–3: types 0, 5 and 6 are OK, types 7, 8 and 9 are EOF, anything else is BADTYP, and nothing is poked. |
| SRecords.DataRecordErrors | c/mon-srec.c:57-89 | For types 1–3, each error code holds exactly when its condition holds. BADLEN: length below 10, count below 3 or length below 2·count+4. NONHEX: otherwise, a non-hex pair among the count pairs. BADCK: otherwise, a low byte of the sum other than 0xff. EOF and BADTYP never occur. |
| SRecords.ReadPair | c/mon-srec.c:76-77 | Reading a hex pair gives its byte and moves on by 2. |
| SRecords.SumPairs | c/mon-srec.c:74-84 | The checksum loop computes the checked sum, or failure at the first non-hex pair. |
| SRecords.PokeLoop | c/mon-srec.c:95-100 | The data loop issues the pokes of PokeRun, and none when the remaining length is not positive. |
| SRecords.DataLoop | c/mon-srec.c:90-101 | Reading the address field and running the data loop issues DataPokes. |
| SRecords.ReadDataRecord | c/mon-srec.c:67-101 | The type 1–3 branch returns the code and the pokes of the specification DecodeData. |
| SRecords.Loader.constructor | c/mon-srec.c:40-41 | Both counters start at 0. |
| SRecords.Loader.ProcessSRecord | c/mon-srec.c:43-127 | The code and pokes are those of Decode. An S0 record leaves the counters at good 1, bad 0. Any other record adds one to good when its code is not negative and one to bad when it is. |
| SRecordFormat.AddrBytes | c/mon-srec.c:57-63 | Types 1, 2 and 3 carry 2, 3 and 4 address bytes: half the address digits the loader reads. |
| SRecordFormat.HexDigit | c/mon-srec.c:76-77 | The digit written for d is a hex digit that reads back as d. |
| SRecordFormat.HexBytesAt | c/mon-srec.c:76-77 | Each byte is written as two digits, high nibble first. |
| SRecordFormat.Checksum | c/mon-srec.c:85-89 | The written checksum makes count + body + checksum ≡ 0xff (mod 256). |
| SRecordFormat.ChecksumUnique | c/mon-srec.c:85-89 | A checksum byte passes the loader's test exactly when it is the written checksum. |
| SRecordFormat.HexBytesReadBack | c/mon-srec.c:53-54 | The characters after "S" and the type read back, pair by pair, as the count byte and the bytes written. |
| SRecordFormat.PairsSum | c/mon-srec.c:74-84 | On written pairs the checksum loop returns the sum of the written bytes. |
| SRecordFormat.PairsValue | c/mon-srec.c:90-91 | Written pairs read with gethex give the big-endian value of the bytes. |
| SRecordFormat.BEValueOfBigEndian | c/mon-srec.c:90-91 | The big-endian bytes of v in m bytes read back as v mod 256^m. |
| SRecordFormat.RecordLength | c/mon-srec.c:53 | A written record's m_strlen is 2 + 2·(number of bytes after the type). |
| SRecordFormat.WellFormedCount | c/mon-srec.c:53-54 | A hex pair after "Sn" is read as the count, and the payload starts at index 4. |
| SRecordFormat.WellFormedAddress | c/mon-srec.c:90-91 | The address field of a written record reads as the big-endian value of its bytes, below 2^32. |
| SRecordFormat.WellFormedPokes | c/mon-srec.c:90-101 | The data loop on a written record pokes exactly the data bytes, in order, from the written address. |
| SRecordFormat.WellFormedParts | c/mon-srec.c:65-101 | On a record of known pairs the length checks pass, the checksum loop sums every byte after the type, and the data loop pokes the bytes after the address. |
| SRecordFormat.DataDecodes | c/mon-srec.c:65-101 | Given what its loops find, a data record decodes to OK with those pokes when count + sum ends in 0xff, and to BADCK otherwise. |
| SRecordFormat.DecodeWellFormed | c/mon-srec.c:43-127 | A well-formed data record decodes to OK and pokes its data when its checksum is right, and to BADCK otherwise. |
| SRecordFormat.RecordShape | c/mon-srec.c:53-63 | A written record has its type at index 1 and m_strlen 4 + 2·(bytes after the count). Its count pair reads as that number of bytes, and its payload pairs read as those bytes. |
| SRecordFormat.RecordParts | c/mon-srec.c:90-101 | A written record's body splits into the address bytes, which are the address, and the data bytes. |
| SRecordFormat.DecodeRecordShaped | c/mon-srec.c:43-127 | A line of the written shape decodes to OK with its pokes when the checksum is right, and to BADCK otherwise. |
| SRecordFormat.RecordDecodes | c/mon-srec.c:43-127 | For any checksum byte, a written record decodes to OK with the pokes of its data when the checksum is right, and to BADCK otherwise. |
| SRecordFormat.RecordRoundTrip | c/mon-srec.c:43-127 | A written S1/S2/S3 record decodes to OK and pokes exactly its data bytes at its address onward. |
| MonStdio.LineEnd | c/mon-stdio.c:36-39 | The length of the input before the first return character (\n or \r). |
| MonStdio.KeyKeepsStored | c/mon-stdio.c:54-78 | Every keystroke keeps the line buffer printable and within max characters. |
| MonStdio.KeysStored | c/mon-stdio.c:52-79 | Whatever is typed, the edited line stays printable and within max characters. |
| MonStdio.KeysEchoGrows | c/mon-stdio.c:52-79 | The echo of a longer input extends the echo of its prefix. |
| MonStdio.RubOutUndoes | c/mon-stdio.c:54-76 | Typing a printable character and then BS or DEL restores the line. The echo is the character, then BS ' ' BS. |
| MonStdio.KeyRejected | c/mon-stdio.c:54-78 | A rub-out on an empty line, or an unprintable character or one beyond max, leaves the line as it was and only rings BEL. |
| MonStdio.TypedLine | c/mon-stdio.c:52-79 | A line of at most max printable characters is stored and echoed exactly as typed. |
| MonStdio.Gets | c/mon-stdio.c:45-84 | The call completes exactly when the input holds a return. The buffer then holds the edited line, NUL-terminated, and the echo is the editing echo followed by "\r\n". |
| MonStdio.DigitChar | c/mon-stdio.c:277 | The character written for a decimal digit d is the digit with value d. |
| MonStdio.CaseLetters | c/mon-stdio.c:222 | "abcdef" and "ABCDEF" are both valid letter sets for prt16. |
| MonStdio.DecimalReadsBack | c/mon-stdio.c:268-281 | prt10's digits read back as v. They start with '0' only for v = 0, which prints "0". |
| MonStdio.DecimalLength | c/mon-stdio.c:268-281 | A value below 10^n takes at most n decimal digits. |
| MonStdio.HexCharDigit | c/mon-stdio.c:291-295 | The digit prt16 writes for a nibble is a hex digit with that value. |
| MonStdio.HexReadsBack | c/mon-stdio.c:283-300 | prt16's digits read back as v. They start with '0' only for v = 0. |
| MonStdio.HexLength | c/mon-stdio.c:283-300 | A value below 16^n takes at most n hex digits. |
| MonStdio.HexGetHexRoundTrip | c/mon-stdio.c:283-300 | gethex on prt16's text returns the printed value and consumes all of the text. |
| MonStdio.Prt10 | c/mon-stdio.c:268-281 | The buffer holds the decimal digits of val, ending at the terminator in the last byte. |
| MonStdio.DecimalFits | c/mon-stdio.c:99-102 | A 64-bit value takes at most 20 decimal digits, so it fits the 31-character buffer. |
| MonStdio.Prt16 | c/mon-stdio.c:283-300 | The buffer holds the hex digits of val, ending at the terminator in the last byte. |
| MonStdio.HexFits | c/mon-stdio.c:99-102 | A 64-bit value takes at most 16 hex digits. |
| MonStdio.Int32 | c/mon-stdio.c:211 | A (truncated) int argument lies in the 32-bit signed range. |
| MonStdio.Int64 | c/mon-stdio.c:209 | A long argument lies in the 64-bit signed range. |
| MonStdio.DigitRun | c/mon-stdio.c:154-158 | The width digits run up to the first character that is not a decimal digit. |
| MonStdio.ParseDirective | c/mon-stdio.c:133-181 | Parsing a directive moves past the '%' and never goes back in the argument list. It stays inside the format unless the format ends there. |
| MonStdio.Rep | c/mon-stdio.c:243-244 | Padding n times gives n copies of the fill character, and none when n is not positive. |
| MonStdio.Step | c/mon-stdio.c:120-263 | One piece of the walk that does not end the call moves forward, staying within the format. |
| MonStdio.ReadNumber | c/mon-stdio.c:154-158 | The digit loop reads the decimal value of the digit run and stops just after it. |
| MonStdio.ReadWidth | c/mon-stdio.c:148-158 | The width ('*' argument or digits) is read as Width specifies. |
| MonStdio.ReadPrecision | c/mon-stdio.c:159-176 | The precision ('.' then '*' or digits, else 255) is read as Precision specifies. |
| MonStdio.ReadDirective | c/mon-stdio.c:133-181 | The flags, width, precision, 'l' and conversion are parsed as ParseDirective specifies. |
| MonStdio.ConvertNumber | c/mon-stdio.c:204-223 | The integer conversion produces the digits and sign of NumberText as written. |
| MonStdio.ConvertArg | c/mon-stdio.c:184-228 | The conversion switch produces the field text that Convert specifies. |
| MonStdio.Pad | c/mon-stdio.c:243-244 | The padding loop appends n fill characters. |
| MonStdio.PutChars | c/mon-stdio.c:248-251 | The output loop appends the first len characters of the text. |
| MonStdio.EmitField | c/mon-stdio.c:229-256 | The field output emits the characters and adds the count that Field specifies. |
| MonStdio.StepOnce | c/mon-stdio.c:120-263 | One pass of the main loop emits what Step specifies. |
| MonStdio.XPrintf | c/mon-stdio.c:107-266 | m_xprintf emits exactly the text of Format and returns its count. |
| MonStdio.Advance | c/mon-stdio.c:118-264 | One pass of the main loop either ends the call with the final output, or moves on without changing the final result. |
| MonStdio.RunStep | c/mon-stdio.c:118-264 | The walk is the first piece followed by the walk from where the piece ends. |
| MonStdio.StepDefined | c/mon-stdio.c:118-264 | A walk that completes has a well-defined next piece. |
| MonStdio.FieldLayout | c/mon-stdio.c:236-256 | Field layout: left-justified gives sign, text, padding; zero fill gives sign, zeros, text; otherwise padding, sign, text. |
| MonStdio.FieldWidth | c/mon-stdio.c:229-256 | With a non-negative precision, the text is cut only at the precision. The field is as wide as the width when the text is shorter, otherwise the text plus its sign. The count equals the characters emitted. |
| MonStdio.FieldCountAsWritten | c/mon-stdio.c:229-235 | As written, a field's count falls short of what it emits exactly when the precision is negative, and then by −len. |
| MonStdio.StepCount | c/mon-stdio.c:118-264 | No piece counts more characters than it emits. With the intended count, every piece counts exactly what it emits. |
| MonStdio.RunCount | c/mon-stdio.c:118-265 | The rest of the walk never raises the count above the characters emitted, and keeps them equal with the intended count. |
| MonStdio.RunNext | c/mon-stdio.c:118-265 | One step of the walk never raises the count above the characters emitted (keeps them equal with the intended count), and the walk either stops or goes on from a later position. |
| MonStdio.FormatCountAsWritten | c/mon-stdio.c:107-266 | The value m_printf returns is never more than the characters it wrote. |
| MonStdio.FormatCountIntended | c/mon-stdio.c:107-266 | With the intended count, m_printf returns exactly the number of characters written. |
| MonStdio.RunPlainPrefix | c/mon-stdio.c:259-263 | A run of ordinary characters is copied to the output and counted one by one. |
| MonStdio.PlainStep | c/mon-stdio.c:259-263 | An ordinary character is copied and counted. |
| MonStdio.DoublePercent | c/mon-stdio.c:124-130 | "%%" prints one '%' and counts it. |
| MonStdio.TrailingPercent | c/mon-stdio.c:186-190 | A '%' at the end of the format prints '%', counts it and ends the call. |
| MonStdio.UnknownConversion | c/mon-stdio.c:225-227 | An unknown conversion character prints "***". |
| MonStdio.FormatPlain | c/mon-stdio.c:118-265 | A format without '%' prints itself up to its terminator and returns its length. |
| MonStdio.Int32Low | c/mon-stdio.c:211-218 | Truncating to int keeps the low 32 bits. A negative int is sign-extended to 64 bits. |
| MonStdio.Int64Low | c/mon-stdio.c:209 | Reading a long keeps the low 64 bits. |
| MonStdio.IntendedNumbers | c/mon-stdio.c:204-223 | The intended digits of %d read back as the magnitude. Those of %u and %x read back, with gethex for hex, as the unsigned value of the argument's 32 or 64 bits. |
| MonStdio.Int32Fits | c/mon-stdio.c:211 | A value already in int range is read unchanged. |
| MonStdio.Int64Fits | c/mon-stdio.c:209 | A value already in long range is read unchanged. |
| MonStdio.LongConversionsExact | c/mon-stdio.c:208-209 | With 'l', every integer conversion prints as intended. |
| MonStdio.IntSignedExact | c/mon-stdio.c:212-218 | %d without 'l' prints as intended for every int except INT_MIN. |
| MonStdio.IntUnsignedAsLong | c/mon-stdio.c:217-222 | %u, %x and %X without 'l' print what the 'l' form would print for the sign-extended int. |
| MonStdio.IntUnsignedWidens | c/mon-stdio.c:217-222 | %u, %x and %X without 'l' print as intended exactly when the int is not negative. |
| MonStdio.DigitsInjective | c/mon-stdio.c:219-222 | Different values print as different digits. |
| MonStdio.OneConversion | c/mon-stdio.c:133-256 | A format that is a single directive prints the field of its converted argument. |
| MonStdio.HexLengthExact | c/mon-stdio.c:283-300 | A value with its top nibble in position n takes exactly n hex digits. |
| MonStdio.ParseZeroEightX | c/mon-stdio.c:143-158 | "%08x" parses as zero fill, width 8, default precision 255, conversion 'x'. |
| MonStdio.HighIntValues | c/mon-stdio.c:217-218 | A negative int, once sign-extended, has ffffffff in its high 32 bits and its own bits in the low 32. |
| MonStdio.WideFieldUnpadded | c/mon-stdio.c:229-256 | A text of 8 or more characters under "%08x" is printed unpadded. |
| MonStdio.HexDigitsNoNul | c/mon-stdio.c:230 | Hex digit text contains no terminator. |
| MonStdio.ParsePlainD | c/mon-stdio.c:133-181 | "%d" parses as space fill, width 0, precision 255, conversion 'd'. |
| MonStdio.SignedFieldUnpadded | c/mon-stdio.c:229-256 | A negative number under "%d" is printed as '-' followed by its digits, all counted. |
| MonStdio.DecimalDigitsNoNul | c/mon-stdio.c:230 | Decimal digit text contains no terminator. |
| MonStdio.ParseStarPrecision | c/mon-stdio.c:159-166 | "%.*s" takes its precision from the first argument and its string from the second. |
| MonStdio.HighIntHexAsWritten | c/mon-stdio.c:208-222 | As written, "%08x" of a negative int prints 16 digits, with value ffffffff·2^32 plus the int's bits. |
| MonStdio.HighIntHexIntended | c/mon-stdio.c:208-222 | Intended: "%08x" of a negative int prints 8 digits whose value is the int's 32 bits. |
| MonStdio.MinIntAsWritten | c/mon-stdio.c:212-220 | As written, "%d" of INT_MIN prints '-' and the digits of 2^64 − 2^31. |
| MonStdio.MinIntIntended | c/mon-stdio.c:212-220 | Intended: "%d" of INT_MIN prints "-2147483648", the digits of 2^31. |
| MonStdio.NegativePrecisionAsWritten | c/mon-stdio.c:159-176 | As written, "%.*s" with a negative precision −p prints p spaces and counts 0 characters. |
| MonStdio.NegativePrecisionIntended | c/mon-stdio.c:159-176 | Intended: a negative precision is ignored. The whole string is printed and counted. |
| Commands.CommandLetters | c/monitor.c:102-175 | Command letters are case-insensitive. Only NUL and the letters S B H W Q D M G Z ? select a handler other than "What?". NUL means do nothing. |
| Commands.AlignedCellFits | c/monitor.c:214-220 | An address aligned to the width has the whole cell below 2^64. |
| Commands.WordParse | c/monitor.c:201-270 | A show or set request always names an aligned cell inside memory. A value to set is below 256^s. |
| Commands.WordShowLine | c/monitor.c:206-240 | "Ba" with a in lower-case hex shows the cell when a is aligned, and answers "How?" otherwise. |
| Commands.WordSetLine | c/monitor.c:206-268 | "Ba=v" with v below 256^s sets the cell when a is aligned, and answers "How?" otherwise. |
| Commands.AddrBefore | c/monitor.c:206-222 | In "Xa" followed by a character d that is not a hex digit, the address field reads as a and stops at d, whatever follows. |
| Commands.ValueAtEnd | c/monitor.c:244-247 | In "Xa=v" the value field reads as v and is followed by the terminator. |
| Commands.AddrBeforeTwo | c/monitor.c:206-222 | The same as AddrBefore, for a rest typed as two parts. |
| Commands.ValueBeforeTail | c/monitor.c:244-247 | In "Xa=v" followed by text that does not start with a hex digit, the value field reads as v and stops at that text. |
| Commands.WordSetFields | c/monitor.c:206-268 | An address field, '=', a value field and the end of the line together make a set request, provided the address is aligned. |
| Commands.WordStrayLine | c/monitor.c:206-270 | After the address, any character other than white space, '=' or the terminator is ignored: an aligned address gives no output and no write, and a misaligned one still answers "How?". |
| Commands.WordSetNoValue | c/monitor.c:242-250 | An '=' followed by the end of the line or by a character that is not a hex digit answers "How?" and writes nothing. |
| Commands.WordSetTrailing | c/monitor.c:242-250 | A value followed by text that starts with anything but white space, a hex digit or the terminator answers "How?" and writes nothing. |
| Commands.WordSetLong | c/monitor.c:244-250 | A value of more than 2s hex digits, leading zeros included, answers "How?": gethex stops on a digit, so no truncated value is stored. |
| Commands.LongValueFields | c/monitor.c:244-250 | After "Xa=" and more than 2s hex digits, the value field ends after exactly 2s of them, on a character that is neither white space nor the terminator. |
| Commands.WordTrailFields | c/monitor.c:242-250 | An address field, '=', and a value field (whatever its value) followed by anything but white space or the terminator make "How?", aligned or not. |
| Commands.DigitsCut | h/monitor.h:91 | On more than max hex digits, gethex reads exactly max of them and leaves the cursor on a digit. |
| Commands.GoParse | c/monitor.c:382-428 | A request for one core names core 0–3. |
| Commands.GoLine | c/monitor.c:382-428 | "Ga" starts a on all cores: core 1, 2 and 3 are released, then this core calls a. |
| Commands.GoCoreLine | c/monitor.c:396-419 | "Ga,d" starts a on core d when d ≤ 3, and answers "Sorry :-(" otherwise. |
| Commands.GoStrayLine | c/monitor.c:387-396 | Anything after the address other than a hex digit or ',' (white space included) leaves the rest of the line ignored: every core starts at a. |
| Commands.DumpParse | c/monitor.c:272-331 | A dump request has its address aligned to its size and a non-negative length, counted in bytes. |
| Commands.DumpAfterAddr | c/monitor.c:282-311 | After the address: a failed read answers "How?"; without a ',' the length 16 and size 1 are taken. |
| Commands.DumpAfterLength | c/monitor.c:293-311 | After the length: a failed read answers "How?"; without a second ',' the size 1 is taken. |
| Commands.DumpCheck | c/monitor.c:313-331 | The dump answers "How?" exactly when text follows. It answers "Sorry :-(" exactly when the size is not 1, 2, 4 or 8 or the address is not aligned to it. Otherwise it dumps with the parsed values. |
| Commands.DumpLine | c/monitor.c:275-331 | "Da" dumps 16 bytes from a, one byte per cell. |
| Commands.DumpLengthLine | c/monitor.c:272-331 | "Da,l" with l of up to 4 digits dumps l bytes from a in 1-byte cells. |
| Commands.DumpSizeLine | c/monitor.c:272-331 | "Da,l,s" dumps l bytes from a in s-byte cells when s is 1, 2, 4 or 8 and a is aligned to it, and answers "Sorry :-(" otherwise. |
| Commands.DumpLengthFields | c/monitor.c:279-331 | An address field, ',' and a length field that ends the line make a dump of l bytes in 1-byte cells. |
| Commands.DumpFields | c/monitor.c:279-331 | Address, ',', length, ',' and a size that ends the line leave only the size and alignment checks. |
| Commands.DumpAddrStep | c/monitor.c:279-287 | Once the address is read, the dump continues from the cursor after it. |
| Commands.DumpLengthStep | c/monitor.c:289-298 | A ',' right after the address hands over to the length read after it. |
| Commands.DumpSizeStep | c/monitor.c:299-317 | A ',' right after the length and a size digit that ends the line reach the last checks with that size. |
| Commands.AlignedStep | c/monitor.c:357 | Stepping an aligned address by the cell size stays aligned, wrapping at 2^64. |
| Commands.Row | c/monitor.c:336-360 | A row ends at an aligned address, and a row that read anything used up at least one cell of the length. |
| Commands.RowStep | c/monitor.c:338-360 | One pass of the inner loop reads the cell at a and moves on by the size. |
| Commands.DumpRowsStep | c/monitor.c:333-373 | One pass of the outer loop prints one row, then dumps the rest. |
| Commands.CellAddr | c/monitor.c:357 | The j-th cell's address is aligned and its cell lies inside memory. |
| Commands.CellAddrIs | c/monitor.c:357 | The j-th cell is at a + j·s modulo 2^64. |
| Commands.CellAddrNext | c/monitor.c:357 | The cells after a + s are the cells of a shifted by one. |
| Commands.CellsAt | c/monitor.c:342-356 | The j-th cell shown is the peek of width s at the j-th cell address. |
| Commands.CellsCount | c/monitor.c:333-360 | A dump of length l ≤ 0 shows nothing. Otherwise it shows the fewest cells that cover l bytes. |
| Commands.RowSplit | c/monitor.c:336-360 | A row's cells are the first cells of the dump, and the rest of the dump continues after them. |
| Commands.RowNext | c/monitor.c:357-359 | A row ends at the address of the cell after its last. |
| Commands.RowCount | c/monitor.c:336-360 | A row allowed n cells reads all n and uses n·s bytes of the length when the length allows. Otherwise it reads at most n and uses up the length. |
| Commands.RowCells | c/monitor.c:336 | A row of cells of size s covers 16 bytes. |
| Commands.DumpCells | c/monitor.c:333-373 | The rows of a dump show, in order, exactly the cells from a onward. |
| Commands.DumpRowSizes | c/monitor.c:333-373 | A dump of l bytes prints ⌈l/16⌉ rows. Every row but the last is full (16 bytes), and none is larger. |
| Commands.DotsAt | c/monitor.c:364-370 | The text column as written has one character per byte from ca up to the end address: the byte itself if printable and not a space, else '.'. |
| Commands.AsciiOfAt | c/monitor.c:364-370 | The intended text column has one dot-or-character per cell shown. |
| Commands.TopRowTextAsWritten | c/monitor.c:361-371 | As written, dumping the top 16 bytes of memory prints the row of 16 cells with an empty text column. |
| Commands.TopRow | c/monitor.c:333-360 | A row of the top 16 bytes reads 16 cells, and the next address wraps to 0. |
| Commands.RowTextIntended | c/monitor.c:361-371 | The intended text column of a byte row has one character per cell, for the byte at a + k modulo 2^64. |
| Commands.RowByte | c/monitor.c:336-357 | Cell k of a byte row is the byte at a + k modulo 2^64. |
| Commands.RowTextAgrees | c/monitor.c:361-371 | The text column as written equals the intended one exactly when the row does not reach the top of memory. |
| Commands.ZeroParse | c/monitor.c:430-471 | A zero request never has its start above its end. |
| Commands.ZeroCheck | c/monitor.c:461-471 | The last checks of zero_op only accept a range whose start is at most its end. |
| Commands.ZeroAfterStart | c/monitor.c:437-471 | Once gethex has read the start, a zero request still never has its start above its end. |
| Commands.ZeroFields | c/monitor.c:434-471 | A start field, ',', an end field and the end of the line make a zero request exactly when start ≤ end, and "How?" otherwise. |
| Commands.ZeroRangeLine | c/monitor.c:434-471 | "Zs,e" zeroes [s, e) when s ≤ e, and answers "How?" otherwise. |
| Commands.ZeroStartLine | c/monitor.c:432-471 | "Zs" alone has end 0: it does nothing when s is 0, and answers "How?" otherwise. |
| Commands.ClearMore | c/monitor.c:479-495 | Zeroing w more bytes at the end of a zeroed range gives the longer zeroed range. |
| Commands.StoreByte | c/monitor.c:81-84 | A 1-byte poke sets just that byte. |
| Commands.AppliedRun | c/monitor.c:81-84 | Applying pokes at consecutive addresses from i on sets exactly those bytes. |
| Commands.AppliedData | c/monitor.c:108-127 | Applying a record's pokes sets exactly its data bytes at its address onward. |
| Commands.RecordLoads | c/monitor.c:108-127 | Loading a written data record succeeds. It stores the data at the address and changes no other byte. |
| Commands.Monitor.constructor | c/monitor.c:91-95 | The monitor starts by printing the help text, with the memory as given and both counters at zero. |
| Commands.Monitor.Execute | c/monitor.c:97-176 | One pass of the loop carries out the command named by the first non-space character of the line. |
| Commands.Monitor.Dispatch | c/monitor.c:102-176 | Each branch of the switch has its effect: an empty line does nothing, S loads a record, B/H/W/Q word_op, D dump_op, M "Not implemented", G go_op, Z zero_op, ? help, anything else "What?". |
| Commands.Monitor.RecordOp | c/monitor.c:108-127 | The S case: the record is decoded, its pokes are applied in order as 1-byte stores, and the counters are updated. It prints nothing on OK, "End of S-record file" on EOF, and the whole line as a bad record on an error. |
| Commands.Monitor.ApplyPokes | c/monitor.c:110 | The poke callbacks store their bytes in order. |
| Commands.Monitor.PokeNext | c/monitor.c:81-84 | One callback extends the applied prefix by one poke. |
| Commands.Monitor.WordOp | c/monitor.c:201-270 | word_op does what WordParse asks. It shows the cell's value, sets the cell so that it reads back the value, answers "How?", or stays silent after a stray character. |
| Commands.Monitor.WordAct | c/monitor.c:208-268 | Each word_op outcome has its effect on memory and output. |
| Commands.Monitor.GoOp | c/monitor.c:382-428 | go_op performs the launches of GoParse in order and prints its message. |
| Commands.Monitor.GoAct | c/monitor.c:390-427 | Each go_op outcome launches the right cores in order or prints "How?" or "Sorry :-(". |
| Commands.Monitor.DumpOp | c/monitor.c:272-374 | dump_op prints the rows of the dump as written, "How?" or "Sorry :-(", and changes nothing else. |
| Commands.Monitor.DumpWalk | c/monitor.c:333-373 | The outer loop prints the rows of DumpRows as written. |
| Commands.Monitor.ReadRow | c/monitor.c:336-360 | The inner loop reads the cells of one row and returns where the next row starts. |
| Commands.Monitor.TextColumn | c/monitor.c:364-370 | The text loop prints the dots-or-characters of the bytes from ca up to a. |
| Commands.Monitor.ZeroOp | c/monitor.c:430-497 | zero_op clears exactly [s, e) and issues only byte stores inside the range and 8-byte stores at multiples of 8 below e & ~7. Otherwise it answers "How?". |
| Commands.Monitor.ZeroFill | c/monitor.c:473-496 | The three zeroing loops clear [s, e) using only such stores. |
| Commands.Monitor.ZeroHead | c/monitor.c:477-481 | The first loop zeroes bytes up to a multiple of 8 not above e & ~7. |
| Commands.Monitor.ZeroQuads | c/monitor.c:485-489 | The second loop zeroes 8 bytes at a time up to e & ~7. |
| Commands.Monitor.ZeroTail | c/monitor.c:492-496 | The last loop zeroes the remaining bytes up to e. |
| Commands.Monitor.ZeroCell | c/monitor.c:479-494 | One store that zero_op may issue extends the zeroed prefix by its width. |

## Left out

- Characters travel as sequences. Reading (m_readchar) is a given input sequence, and writing (m_writechar, m_putc) is an output sequence. m_putc is taken to write its character unchanged.
- The prompt, the message wording and the help text are not modelled. Messages are tags (`Commands.Message`): a dump row carries its address, cells and text column, and a shown cell its address, width and value.
- The " -" separator in byte rows is not modelled. Neither is the "%08x" and "%016x" text of the address and value in word_op and dump_op: they pass a 64-bit value to conversions without 'l', which the formatter findings cover in general.
- `monitor` is an endless loop. `Commands.Monitor.Execute` is one pass of it, on the line m_gets returned; `MonStdio.Gets` models m_gets on its own.
- Starting code (`go`, `release`) is recorded as launch events. Running the code is outside the model.
- loadhigh.c, mon-bcm2835.c and board-start.c are not part of this model, nor is the 32-bit board variant.
- gethex and char2hex are declared in h/monitor.h, but their bodies are not part of this model. `MonitorDefs.GetHex` and `MonitorDefs.DigitValue` are defined from the behaviour the callers rely on: no space skipping, up to max digits, NULL when no digit is read, and the value 0 when no digit is read. One outcome depends on that last choice: process_s_record compares the count gethex returns with 3 even when the read failed (c/mon-srec.c:68), so a data record whose count field is not hex (such as "S1zz...") is SREC_BADLEN in the model (`SRecords.DataRecordErrors`). A gethex that returned 3 or more there would instead enter the checksum loop with a NULL cursor.
- Cells wider than a byte are taken to be little-endian. Unaligned or device-register accesses are not modelled.
- The good and bad record counters are unbounded integers; C int overflow is not modelled.
- MonStdio.ReadNumber: the width and precision accumulators (`fmin = fmin * 10 + ...` and `fmax = ...`, c/mon-stdio.c:154-158 and 170-174) are unbounded integers here, as are `MonStdio.Width`, `MonStdio.Precision` and the returned count `nprinted` (c/mon-stdio.c:115). C's int would overflow on a run of 10 or more digits or on more than 2^31-1 characters; that overflow is not modelled.
- An m_printf argument of the wrong type (undefined in C) makes `MonStdio.Format` undefined (None), and `MonStdio.XPrintf` requires it to be defined.
- m_printf is the variadic wrapper around m_xprintf. It is modelled by `MonStdio.XPrintf` over a list of arguments.
- `a & (s-1)` is written as `a % s`, and `e & ~7` as `e - e % 8`. These are equal for the powers of two used; that bit-level equality is not proved.
- `ck & 0xff` in process_s_record is written as `ck % 256`.
- Commands.Monitor.RecordOp: the pokes process_s_record issues through its callback are applied after the decoder returns, in the same order. The model does not interleave them with the decoding, which reads only the line.
- Commands.Monitor.ZeroOp: the stores of zero_op are stated as a set of allowed stores (bytes in range, aligned 8-byte stores below e & ~7), not as their exact sequence.
- Commands.Monitor.DumpOp: the rows are stated as messages with cell values and text column, not as their printed hex text.

## Findings

| source | as written | input that shows it | evidently intended | confidence | as-written member | corrected member |
|---|---|---|---|---|---|---|
| c/mon-stdio.c:208-222 | Without 'l', an int argument of %u/%x/%X is sign-extended to 64 bits before prt10 or prt16. A negative int therefore prints as 16 hex digits (or 20 decimal), high half all f. | `m_printf("%08x", 0x80000000)` prints ffffffff80000000 | the 32-bit value: 80000000 | not executed | MonStdio.HighIntHexAsWritten | MonStdio.HighIntHexIntended |
| c/mon-stdio.c:212-220 | For %d, num = -num is done in 64 bits and then truncated back to int, so INT_MIN stays negative. It is then printed as an unsigned long. | `m_printf("%d", INT_MIN)` prints '-' followed by 18446744071562067968 | -2147483648 | not executed | MonStdio.MinIntAsWritten | MonStdio.MinIntIntended |
| c/mon-stdio.c:159-176 | A negative precision taken from '*' makes len negative. Then leading = fmin − len is positive, so −len spaces are printed while nprinted counts 0. | `m_printf("%.*s", -3, "abc")` prints three spaces and returns 0 | ignore a negative precision and print "abc", returning 3 | not executed | MonStdio.NegativePrecisionAsWritten | MonStdio.NegativePrecisionIntended |
| c/monitor.c:361-371 | The text column of a byte dump loops while ca < a. In the row ending at the top of memory, a has wrapped to 0, so the column is empty. | `D fffffffffffffff0` prints the 16 bytes with no text column | one character per byte of the row | not executed | Commands.TopRowTextAsWritten | Commands.RowTextIntended |
