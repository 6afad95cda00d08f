# libloader: verified models of its codec, formatter, mutex and bit tricks

This project models four parts of libloader in Dafny and proves what they promise.

* **LZO1X-1** (`LzoFormat`, `LzoEncoding`, `LzoWire`, `LzoDecompress`, `LzoCompress`,
  `LzoRoundTrip`). `LzoFormat.Decode` is the byte-at-a-time meaning of an LZO1X stream. The
  decompressor, with its word-wise copies, is proved against that meaning, error codes
  included. `LzoWire` fixes the meaning in numbers: it writes streams of arbitrary literals and
  matches, in all five forms of match code, from formulas of its own, and proves that every
  such stream decodes to what its literals and matches make. The compressor keeps an invariant
  (the bytes emitted so far parse as tokens whose meaning is the input read so far, and they
  are paid for by the input), from which come the round trip and the bound n + n/16 + 4, for
  every input and every initial content of the work memory; n equal bytes shrink to n/255 + 13.
* **printf and scanf** (`CType`, `FormatDecode`, `Digits`, `PrintfText`, `PrintfBuffer`,
  `Printf`, `ConversionText`, `FormatGrammar`, `PlainFormats`, `StarWidth`, `BinPrintf`,
  `BinLayout`, `BinAgreement`, `Strto`, `Scanf`, `ScanTokens`, `ScanIntegers`, `ScanWords`,
  `PrintScan`, `AlternateForm`, `Ip6Text`, `Ip6`). `Printf.Formatted` says what a format and
  its arguments print without any buffer. `vsnprintf`, `vbin_printf` followed by
  `bstr_printf`, and `vsscanf` are methods over arrays proved against such functions. About
  the functions it is proved that a format prints what its letters mean (`ConversionText`, an
  account without decoder, casts or padding loops), that the format loop terminates, that
  truncation is exact, that numbers, strings and characters are laid out as intended exactly
  when no 16-bit wrap-around shows, which bytes `vbin_printf` packs and where, exactly when
  binary printing agrees with direct printing, what each element of a scan format takes from
  the input and stores, that scanning undoes printing, for words exactly when each has a
  character, no white space and at most 32767 characters, and that a compressed IPv6 address
  determines the address.
* **Mutex fast paths** (`Threads`, `MutexXchg`, `MutexDec`). Transition systems with one step per atomic
  operation, any number of threads and every interleaving; the slow path is an environment that
  may do whatever the header comments allow it to do.
* **Bit tricks** (`Bithacks`). The population counts by casting out 63s and 255s, the lowest
  zero bit, and rounding to powers of two.

`Bits` holds bytes and the C operators `|` and `^` on naturals. Fixed-width arithmetic is written
out: 16-bit widths and precisions, 32- and 64-bit words, casts to the C types. `long` and pointers
have 64 bits and the machine is little-endian.

Where code and comments disagree the model follows the code. The comment on `vbin_printf` says
that a result greater than `size` means the buffer was too small. A result equal to `size` is not
enough either: `BinAgreement.FlushExample` shows a string that is counted but not stored.
`BinAgreement.AllStored` says exactly when everything is stored, and
`BinAgreement.ExactAgreement` exactly when printing from the words agrees with printing directly:
no string directive of a precision other than 0 has its string end flush with the buffer.

Widths have 16 bits. `StarWidth.StarWidths` says for which int arguments `%*d` prints in |w|
columns on the side that the sign asks for: exactly those from -32768 to 32767. The argument
32768 is printed on the left (`StarWidth.WrongSide`); -32768, which cannot be negated in 16 bits,
comes out right because the width wraps around once more when the digits are taken off it
(`PrintfText.WrapExample`). `last_0_pos` of the word of all ones is 31 although that word has no
zero bit.

Variadic arguments are a sequence of 64-bit slots,
some of which point to C strings; an argument that is missing reads as 0.

## Model

| member | source | states |
|---|---|---|
| LzoFormat.CopyFromUnique | src/lib/lzo1x_decompress.c:202-208 | A copy that may overlap itself is determined: the old output followed by bytes each equal to the one an offset earlier is what byte-at-a-time copying yields |
| LzoEncoding.ExtensionInverts | src/lib/lzo1x_compress.c:87-94 | The decoder reads the count back from its zero bytes and last byte, however long |
| LzoEncoding.RunInverts | src/lib/lzo1x_compress.c:84-98 | A literal run of any length from 4 up parses as exactly that run, at the start of a stream and between codes |
| LzoEncoding.M2Inverts | src/lib/lzo1x_compress.c:108-112 | The two bytes of a near, short match give back offset, length and the trailing-literal count in their free bits |
| LzoEncoding.LongInverts | src/lib/lzo1x_compress.c:113-164 | M3 and M4 codes, with or without extension bytes, give back offset, length and count, and never look like the end marker |
| LzoEncoding.MatchInverts | src/lib/lzo1x_compress.c:101-165 | For every offset 1..0xbfff and every length from 3 up the decoder's dispatch recovers exactly the match, in every context a match can stand in |
| LzoEncoding.EofInverts | src/lib/lzo1x_compress.c:215-217 | The bytes 17, 0, 0 parse as the end of the stream in every context |
| LzoEncoding.StepLocal | src/lib/lzo1x_decompress.c:55-227 | Parsing one token depends only on its own bytes, so that emitted codes keep their meaning when more is appended |
| LzoEncoding.AppendMatch | src/lib/lzo1x_compress.c:101-165 | Appending a match code appends exactly that token, and its second byte from the end keeps two zero bits for a later count |
| LzoEncoding.AppendLiterals | src/lib/lzo1x_compress.c:79-99 | One to three literals recorded in the preceding code, or a run code, parse back as exactly those literals; the codes before keep their meaning |
| LzoEncoding.EmitBlock | src/lib/lzo1x_compress.c:77-165 | Pending literals and a match extend the decoded output by the literals and the copied bytes |
| LzoEncoding.EmitTail | src/lib/lzo1x_compress.c:190-217 | The tail literals and the end marker turn the codes emitted so far into a complete stream for the input |
| LzoEncoding.DecodeOverruns | src/lib/lzo1x_decompress.c:214-217 | Decoding whole tokens into too small a capacity stops with an output overrun at a prefix of the output |
| LzoWire.ExtensionValue | src/lib/lzo1x_decompress.c:59-69 | z zero bytes and a byte b other than 0 count 255 z + b |
| LzoWire.LongRun | src/lib/lzo1x_decompress.c:59-73 | A 0, z zeros and b head 18 + 255 z + b literals; if the input has fewer it is starved of that many |
| LzoWire.CodeM3 | src/lib/lzo1x_decompress.c:129-144 | A byte b from 33 to 63 and the bytes lo, hi: b - 30 bytes from 1 + lo/4 + 64 hi back, lo mod 4 literals to follow |
| LzoWire.CodeM3Long | src/lib/lzo1x_decompress.c:129-144 | A 32, z zeros and e: 33 + 255 z + e bytes, offset and count as before |
| LzoWire.CodeM4 | src/lib/lzo1x_decompress.c:145-165 | A byte b from 16 to 31 with b mod 8 not 0: b mod 8 + 2 bytes from 0x4000 and 0x4000 times bit 3 of b and lo/4 + 64 hi back, or the end of the stream when the last two are 0 |
| LzoWire.CodeM4Long | src/lib/lzo1x_decompress.c:145-165 | A 16 or 24, z zeros and e: 9 + 255 z + e bytes, offset, end and count as before |
| LzoWire.CodeReads | src/lib/lzo1x_decompress.c:98-179 | Each of the five forms of match code, far M1 after a run, near M1 after one to three literals, M2, M3 and M4, written by formula for every offset and length it has room for, reads back as that match and announces its literals |
| LzoWire.CopyRepeats | src/lib/lzo1x_decompress.c:202-208 | Byte i of a copy is byte i mod offset of the last offset bytes of the output |
| LzoWire.BlocksDecode | src/lib/lzo1x_decompress.c:55-228 | Any sequence of matches and literals written by formula decodes, for every capacity, to what carrying them out makes, or stops with the code of the first that fails |
| LzoWire.StreamDecodes | src/lib/lzo1x_decompress.c:30-248 | A stream of first literals, any blocks and 17, 0, 0 gives exactly what its tokens make, with 0, or -8 when bytes are left over; a match from before the output gives -6 and a token without room -5, each with the output so far |
| LzoWire.StreamUnended | src/lib/lzo1x_decompress.c:230-231 | Without the end marker after a match the code is -7, with the output made |
| LzoWire.StreamStarves | src/lib/lzo1x_decompress.c:213-217 | A stream that stops inside or right after the literals of its last code gives -4, or -5 when there was no room for them |
| LzoWire.RunCodeBytes | src/lib/lzo1x_compress.c:84-94 | The header of n literals is n - 3, or 0, (n - 19)/255 zeros and (n - 19) mod 255 + 1 |
| LzoWire.MatchCodeBytes | src/lib/lzo1x_compress.c:108-164 | The compressor codes every match by the formula of M2, else M3, else M4 |
| LzoDecompress.CopyRun | src/lib/lzo1x_decompress.c:70-96 | Copying a literal run by words and then bytes appends exactly the run and writes nothing beyond it |
| LzoDecompress.CopyMatchBytes | src/lib/lzo1x_decompress.c:202-208 | Byte copying continues the output with its own period and touches nothing else |
| LzoDecompress.CopyMatchWords | src/lib/lzo1x_decompress.c:186-200 | Copying by words at a distance of at least 4 has the same effect as copying by bytes, and writes exactly t + 2 of them |
| LzoDecompress.CopyMatch | src/lib/lzo1x_decompress.c:181-208 | Either path yields the byte-at-a-time copy |
| LzoDecompress.ReadLength | src/lib/lzo1x_decompress.c:59-69 | The count loop reads the count of the format, or fails exactly when the input ends within it |
| LzoDecompress.DoShortMatch | src/lib/lzo1x_decompress.c:98-115 | M1 and M2 codes: the format's match, or the lookbehind or output overrun it is due |
| LzoDecompress.DoM3 | src/lib/lzo1x_decompress.c:129-144 | M3 codes: the format's match or its error |
| LzoDecompress.DoM4 | src/lib/lzo1x_decompress.c:145-165 | M4 codes and the end marker: the format's match, its error, or the end with the code that the remaining input calls for |
| LzoDecompress.DoMatch | src/lib/lzo1x_decompress.c:117-179 | The dispatch on the first byte agrees with the format for all byte values |
| LzoDecompress.DoLiterals | src/lib/lzo1x_decompress.c:213-225 | Literals are copied if they and something after them fit, else the right overrun is reported, output before input |
| LzoDecompress.Begin | src/lib/lzo1x_decompress.c:41-53 | The special first byte leads to the outcome that the format assigns to the whole stream |
| LzoDecompress.Advance | src/lib/lzo1x_decompress.c:55-212 | One turn of the loops moves between program points with the same outcome still due; the outcome is fixed in numbers by LzoWire.StreamDecodes |
| LzoDecompress.DecompressSafe | src/lib/lzo1x_decompress.c:30-248 | For every stream whose codes are not cut off and every capacity, return code and output are those of the byte-at-a-time meaning, which LzoWire fixes for all streams of literals and matches, and the buffer beyond the output is untouched |
| LzoCompress.FindMatch | src/lib/lzo1x_compress.c:35-78 | Whatever the dictionary holds, a match is reported exactly when the candidate probed lies in the window and repeats 3 bytes, 4 if it is far; the one slot probed, below 2^14, then records the position and nothing else changes |
| LzoCompress.TakesExactly | src/lib/lzo1x_compress.c:38-66 | A candidate is taken if and only if it lies 1 to 0xbfff bytes back and agrees on three bytes, and on a fourth if it is more than 0x800 back |
| LzoCompress.RepeatFound | src/lib/lzo1x_compress.c:35-78 | Four bytes recorded in their slot are found again at their next occurrence in the window |
| LzoCompress.ExtendMatch | src/lib/lzo1x_compress.c:101-132 | The match grows by bytes that really repeat and stays inside the input |
| LzoCompress.EmitLiterals | src/lib/lzo1x_compress.c:79-99 | The bytes written are the codes before, patched or followed by a run code, and the literals |
| LzoCompress.EmitMatch | src/lib/lzo1x_compress.c:108-164 | The bytes written are the match code, the or-ed fields being disjoint |
| LzoCompress.PatchCount | src/lib/lzo1x_compress.c:82-83 | Or-ing in the count changes only the two free bits of the byte before the last |
| LzoCompress.BlockSize | src/lib/lzo1x_compress.c:45-59 | A block costs no more than the input it covers and a sixteenth, because a far match is at least 4 long |
| LzoCompress.BlockKeepsInvariant | src/lib/lzo1x_compress.c:77-167 | Literals and a match keep the invariant: the bytes emitted decode to the input up to the new position and are paid for; the byte to patch has two zero bits |
| LzoCompress.EmitBlockAt | src/lib/lzo1x_compress.c:77-167 | The in-place emission of a block keeps the invariant, stays within the buffer and advances by at least 3, to the end of the input if all its bytes are equal |
| LzoCompress.DoCompress | src/lib/lzo1x_compress.c:20-174 | On return the emitted codes mean exactly the input before the returned tail, for every initial dictionary; of more than 18 equal bytes no tail is left and at most n/255 + 10 bytes are emitted |
| LzoCompress.ConstantProbe | src/lib/lzo1x_compress.c:35-78 | On equal bytes the second probe meets the first in its slot and takes it, whatever the dictionary held |
| LzoCompress.TailEncodes | src/lib/lzo1x_compress.c:190-219 | With tail and end marker the stream encodes the whole input within the size bound |
| LzoCompress.Compress | src/lib/lzo1x_compress.c:176-221 | For every input and dictionary the output is a complete stream for the input, of at most n + n/16 + 4 bytes, and of at most n/255 + 13 for more than 18 equal bytes |
| LzoRoundTrip.RoundTrip | src/lib/lzo1x_compress.c:176-221 | Decompressing what was compressed gives back the input with LZO_E_OK when the capacity is at least its length, and otherwise an output overrun and a prefix; more than 18 equal bytes were packed into n/255 + 13 |
| MutexXchg.StepExclusive | linux-include/include/asm-generic/mutex-xchg.h:25-109 | Every atomic step of lock, unlock, trylock and slow path keeps: count <= 1, and owners plus [count == 1] are exactly one |
| MutexXchg.RunExclusive | linux-include/include/asm-generic/mutex-xchg.h:25-109 | This holds in every state of every run |
| MutexXchg.MutualExclusion | linux-include/include/asm-generic/mutex-xchg.h:25-109 | Two threads never hold the lock at once, and while one does the count is below 1 |
| MutexXchg.StepFlagged | linux-include/include/asm-generic/mutex-xchg.h:86-109 | A step that does not settle contention leaves it visible in the count, in a trylock between its exchanges, or in a locker bound for the slow path |
| MutexXchg.ContentionRemembered | linux-include/include/asm-generic/mutex-xchg.h:62-109 | Once the count was negative, contention stays visible until an unlock is due to call its slow path or the owner settles it |
| MutexXchg.NoLostWakeup | linux-include/include/asm-generic/mutex-xchg.h:50-109 | In every run with a slow path that looks after its sleepers, a sleeping waiter is covered by a flag or by a wake-up under way |
| MutexXchg.LockOutcome | linux-include/include/asm-generic/mutex-xchg.h:25-30 | After a lock call the caller owns the lock if and only if the count was 1, and is bound for fail_fn if and only if it was below |
| MutexXchg.LoserStays | linux-include/include/asm-generic/mutex-xchg.h:25-50 | In every run a caller bound for the slow path stays in it until it owns the lock or gives up |
| MutexXchg.UnlockOutcome | linux-include/include/asm-generic/mutex-xchg.h:62-67 | An unlock leaves 1, and its fail_fn is due if and only if the count was negative |
| MutexXchg.TryOutcome | linux-include/include/asm-generic/mutex-xchg.h:86-109 | The first exchange of a trylock wins if and only if the count was 1; undisturbed, the second puts a negative count back |
| MutexXchg.TrySecond | linux-include/include/asm-generic/mutex-xchg.h:86-109 | The second exchange wins if and only if the lock was freed meanwhile, and leaves a negative count |
| MutexXchg.SomeoneSleeps | linux-include/include/asm-generic/mutex-xchg.h:25-67 | Some careful run reaches a sleeping waiter, wakes it and gives it the lock |
| MutexDec.StepExclusive | linux-include/include/asm-generic/mutex-dec.h:20-88 | Every decrement, increment and compare-exchange keeps: owners plus [count == 1] are exactly one; an owner holds on after an increment that is not positive |
| MutexDec.RunExclusive | linux-include/include/asm-generic/mutex-dec.h:20-88 | This holds in every state of every run |
| MutexDec.MutualExclusion | linux-include/include/asm-generic/mutex-dec.h:20-88 | Two threads never hold the lock at once |
| MutexDec.NoLostWakeup | linux-include/include/asm-generic/mutex-dec.h:45-88 | In every run with a careful slow path a sleeping waiter is covered by a negative count or by a thread that will act; such runs exist (MutexDec.SomeoneSleeps) |
| MutexDec.LockOutcome | linux-include/include/asm-generic/mutex-dec.h:20-25 | After a lock call the caller owns the lock if and only if the count was 1, and is bound for fail_fn if and only if it was below |
| MutexDec.LoserStays | linux-include/include/asm-generic/mutex-dec.h:20-43 | In every run a caller bound for the slow path stays in it until it owns the lock or gives up |
| MutexDec.UnlockOutcome | linux-include/include/asm-generic/mutex-dec.h:58-63 | An unlock adds 1, and its fail_fn is due if and only if the count was negative |
| MutexDec.ReleaseOutcome | linux-include/include/asm-generic/mutex-dec.h:45-63 | The fail_fn of an unlock stores 1 before it looks for waiters |
| MutexDec.TryOutcome | linux-include/include/asm-generic/mutex-dec.h:82-88 | A trylock takes the lock if and only if it is free, and otherwise changes nothing |
| MutexDec.SomeoneSleeps | linux-include/include/asm-generic/mutex-dec.h:20-62 | Some careful run reaches a sleeping waiter, wakes it and gives it the lock |
| FormatDecode.SkipAtoi | src/lib/vsprintf.c:271-279 | Reads exactly the run of digits and its decimal value |
| FormatDecode.DecodeFormat | src/lib/vsprintf.c:1060-1236 | The decoder with its loops, fresh or resumed after a star, agrees with the function Decode, whose specs print what the letters mean (FormatGrammar.FormatMeans) |
| FormatGrammar.ConvRenders | src/lib/vsprintf.c:1060-1236 | A conversion written as `%`, flags, width, precision, length and character, stars included, prints what its letters mean, uses as many arguments as its syntax asks for, and printing goes on right after it |
| FormatGrammar.FormatMeans | src/lib/vsprintf.c:1295-1421 | printf of any format of texts and conversions prints its meaning: `%c` the character of the low byte, `%s` the string cut to its precision, integers the slot reduced to 8, 16, 32 or 64 bits, signed for d and i, with sign, prefix, zeros and padding in their places, 16-bit wrap-around of the width included |
| FormatGrammar.IntegerMeans | src/lib/vsprintf.c:1383-1420 | number prints the integer of the length and conversion letter: sign, prefix, digits of at least the precision, padded in 16 bits |
| FormatGrammar.KindCuts | src/lib/vsprintf.c:1383-1418 | For every length, z, Z, t and L included, the cast of the kind is the slot reduced to the bits of the length, signed for d and i |
| FormatGrammar.CharMeans | src/lib/vsprintf.c:1321-1342 | %c prints its character on the side asked for in the columns of the width; where the width wraps around, 32767 spaces stand where the text says |
| FormatGrammar.StringMeans | src/lib/vsprintf.c:546-574 | string prints its text cut to the precision, on the side asked for; the width -32768 puts up to 32767 columns after it |
| PlainFormats.DecimalPrints | src/lib/vsprintf.c:425-543 | "%d", "%+d" and "% d" print, for every argument, a minus sign or the flag, and the decimal numeral |
| PlainFormats.PrecisionPrints | src/lib/vsprintf.c:425-543 | "%.Nd" prints sign, zeros up to N digits and digits if and only if these are at most 32764 characters |
| PlainFormats.CutPrints | src/lib/vsprintf.c:546-574 | "%.Ns" prints the first N characters of every string |
| PlainFormats.NullPrints | src/lib/vsprintf.c:546-552 | "%s" without a string prints (null) |
| PlainFormats.PointerMeans | src/lib/vsprintf.c:1029-1036 | A pointer prints in lower-case hexadecimal, with zeros to 16 columns unless a width is given, under every spec |
| PlainFormats.PointerCases | src/lib/vsprintf.c:989-1037 | "%p" prints (null), what the letters F f S s R r M m U I4 I6 i4 i6 ask for, or at least 16 lower-case hexadecimal digits |
| PlainFormats.PointerPrints | src/lib/vsprintf.c:1348-1353 | "%p" takes the letters and digits after it with it, and what follows them is text |
| PlainFormats.UnknownPrints | src/lib/vsprintf.c:1361-1365 | A % that begins no conversion, or ends the format, prints as itself, and so does what follows |
| FormatDecode.DecodeKin | src/lib/vsprintf.c:1064-1081 | Kind of token and characters consumed do not depend on the widths and precisions that arguments supplied |
| Digits.NumeralValue | src/lib/vsprintf.c:464-483 | A numeral has digits below its base and stands for its number |
| Digits.NumeralCase | src/lib/vsprintf.c:464-474 | Every digit of a numeral is 0-9 or a letter of the case asked for |
| Digits.TenByCd | src/lib/vsprintf.c:348-355 | The multiply-and-shift quotient is division by ten below 1024 |
| Digits.TenByD | src/lib/vsprintf.c:357-360 | The shorter multiply-and-shift quotient is division by ten up to 68 |
| Digits.PutDecTrunc | src/lib/vsprintf.c:292-327 | Writes the decimal digits of a number up to 99999, least significant first, without leading zeros |
| Digits.PutDecFull | src/lib/vsprintf.c:330-370 | Writes exactly five digits of it |
| Digits.FivePadsDec | src/lib/vsprintf.c:329-370 | The five digits are those of put_dec_trunc padded with zeros |
| Digits.PutDec | src/lib/vsprintf.c:373-382 | Writes the canonical decimal digits of any number, least significant first |
| Digits.Dec64 | src/lib/vsprintf.c:373-382 | A 64-bit number has at most 20 decimal digits |
| PrintfText.NumberLayout | src/lib/vsprintf.c:425-543 | number prints spaces, sign, prefix, zeros, digits, spaces in max(width, needed) characters if and only if its 16-bit width arithmetic does not wrap visibly |
| PrintfText.WrapExample | src/lib/vsprintf.c:488-541 | In number a 16-bit width of -32768 wraps around to 32767 spaces |
| PrintfText.StringLayout | src/lib/vsprintf.c:546-574 | string pads to the width, on the side asked for, if and only if it is left-justified, or the width is not -32768, or the text is at least 32767 long |
| PrintfText.CharLayout | src/lib/vsprintf.c:1321-1342 | %c pads to the width, on the side asked for, if and only if neither padding loop wraps the width around |
| StarWidth.StarPrints | src/lib/vsprintf.c:1064-1072 | For every int width argument %*d prints in as many columns as its low 16 bits, read with their sign, ask for |
| StarWidth.StarWidths | src/lib/vsprintf.c:1313-1315 | %*d prints in the columns of its width argument, on the side its sign asks for, if and only if the argument fits 16 bits |
| StarWidth.WrongSide | src/lib/vsprintf.c:1313-1315 | The width 32768 prints on the left, as -32768 does |
| PrintfText.UnpaddedNumber | src/lib/vsprintf.c:425-543 | Without width and precision a number is sign, prefix and numeral |
| PrintfBuffer.PutConcat | src/lib/vsprintf.c:497-543 | Emitting two texts in a row is emitting their concatenation, whatever falls beyond the end of the buffer |
| PrintfBuffer.ReverseDigits | src/lib/vsprintf.c:462-483 | The digit loops fill the scratch array with the numeral backwards, in every base |
| PrintfBuffer.Number | src/lib/vsprintf.c:425-543 | The bounded emission delivers the text of number, counts all of it and writes nothing at or past the end |
| PrintfBuffer.StringOut | src/lib/vsprintf.c:546-574 | The same for string, its length cut by the precision |
| PrintfBuffer.CharOut | src/lib/vsprintf.c:1321-1342 | The same for a character |
| Printf.FormatProgress | src/lib/vsprintf.c:1295-1421 | Every turn of the format loop, even one that reads nothing, decreases (rest of the format, pending width or precision): the loop terminates on every format |
| Printf.PrintToken | src/lib/vsprintf.c:1301-1420 | One token's text is delivered, whatever its kind |
| Printf.FormatLoop | src/lib/vsprintf.c:1286-1421 | The loop delivers the whole text of format and arguments, as if the buffer were unbounded and then cut |
| Printf.Vsnprintf | src/lib/vsprintf.c:1275-1433 | Returns the length of the whole text for every size up to INT_MAX, 0 beyond; the buffer receives the text truncated and terminated |
| Printf.PrintAtTwoSizes | src/lib/vsprintf.c:1275-1433 | vsnprintf at two sizes returns the same length; the smaller buffer holds min(length, size - 1) characters of the text, as the larger does, a terminator, and after it what it held before (section 7.19.6.12 of ISO C99) |
| Printf.DeliveredPrefix | src/lib/vsprintf.c:1423-1431 | One text delivered at two sizes: the smaller buffer agrees with the larger up to its terminator, and nothing after it or past its size is written |
| BinPrintf.LeRoundTrip | src/lib/vsprintf.c:1591-1609 | A number stored as little-endian bytes reads back |
| BinPrintf.ItemReadsBack | src/lib/vsprintf.c:1734-1747 | A packed argument, aligned and narrowed, reads back as the value its conversion sees, and reading ends where packing ended |
| BinPrintf.RenderAgrees | src/lib/vsprintf.c:1755-1867 | Printing from memory that holds the packed arguments prints what the arguments print, although packing never saw a width or precision |
| BinPrintf.StoreAllHolds | src/lib/vsprintf.c:1611-1693 | Items stored in order do not disturb each other: in the end every one that fits is there |
| BinAgreement.AllStored | src/lib/vsprintf.c:1638-1641 | Everything is stored if and only if the reported words fit and no string would end flush with the buffer, which fewer words than the size rule out |
| BinAgreement.UnexposedAgrees | src/lib/vsprintf.c:1755-1867 | A flush string of precision 0 is not stored and not missed: printing from the words still agrees |
| BinAgreement.ExposedDiffers | src/lib/vsprintf.c:1755-1867 | A flush string of any other precision is missed: two memories that differ where it should be print differently |
| BinAgreement.BinaryAgrees | src/lib/vsprintf.c:1583-1880 | If the reported words fit and no directive is exposed, the text from the packed words is the text from the arguments, whatever the memory held |
| BinAgreement.ExactAgreement | src/lib/vsprintf.c:1583-1880 | When the reported words fit, agreement for every former content of the memory holds if and only if no string directive of a precision other than 0 has its string end flush with the buffer |
| BinAgreement.FlushExample | src/lib/vsprintf.c:1638-1641 | A string that ends flush is counted but not stored: the documented bound is one too generous; its directive is exposed |
| BinPrintf.VbinPrintf | src/lib/vsprintf.c:1583-1697 | Stores every item that fits and reports the words that all of them take; BinLayout.PackedLayout says what the items are and where they lie |
| BinLayout.PackedLaid | src/lib/vsprintf.c:1591-1695 | The items of any format, in order: a string starts right where the item before it ends, a number at the least multiple of its size, or of 4, not below that; the words are the least that hold them all |
| BinLayout.LeByte | src/lib/vsprintf.c:1598-1606 | Byte i of a stored number is v / 256^i mod 256 |
| BinLayout.OwnContent | src/lib/vsprintf.c:1611-1693 | A conversion stores the low 1, 2, 4 or 8 bytes that its length says, one byte for c, a string with its terminator for s, nothing for n and % |
| BinLayout.PackTrails | src/lib/vsprintf.c:1611-1693 | Packing, whose spec never sees a star, stores what the tokens of printing ask for |
| BinLayout.PackedLayout | src/lib/vsprintf.c:1583-1697 | The image of any format of texts and conversions is the pieces that its letters say, stars as ints, in order and each in its place |
| BinPrintf.BstrPrintf | src/lib/vsprintf.c:1722-1880 | Delivers the text of the format with its arguments read from the words |
| BinAgreement.PrintBothWays | src/lib/vsprintf.c:1583-1880 | Packing and then printing gives the same return value and the same buffer as printing directly, for every buffer size and any former content of the word buffer, when words are to spare or no directive is exposed |
| Strto.HornerMod | src/lib/vsprintf.c:65-73 | Wrapping at 64 bits in every step equals reducing the exact value once |
| Strto.SimpleStrtoull | src/lib/vsprintf.c:55-78 | The value modulo 2^64 of the digits after an optional 0x, and where they end |
| Strto.SimpleStrtol | src/lib/vsprintf.c:99-105 | The same with an optional minus sign |
| Strto.NumeralReads | src/lib/vsprintf.c:37-78 | A printed numeral reads back, with its own base or, if decimal, with the base guessed |
| AlternateForm.BaseIsRecovered | src/lib/vsprintf.c:37-78 | What %llu, %#llo, %#llx and %#llX print, simple_strtoull with base 0 reads back, for every 64-bit value |
| AlternateForm.PrefixedBase16 | src/lib/vsprintf.c:62-63 | 0x or 0X and a hexadecimal numeral read with base 16 give its value |
| Scanf.Vsscanf | src/lib/vsprintf.c:1914-2129 | Stores, in order, what the meaning of format and input says, and returns the number of conversions, %n not counted; ScanTokens and ScanIntegers say by indices what each element of the format takes and stores |
| Scanf.ScanTurn | src/lib/vsprintf.c:1925-2116 | One turn of the loop, which ScanTokens and ScanIntegers characterise, stores its part and leaves the rest to be stored |
| ScanTokens.WordScans | src/lib/vsprintf.c:1996-2010 | %s, with any width and length, stores the word from the first character at or after i that is no white space: no white space in it, at most the width in 16 bits, 32767 without one, and ended by white space, the end of the input or the width |
| ScanTokens.CharsScan | src/lib/vsprintf.c:1985-1995 | %c stores as many characters as the width asks for, white space included, one without a width, or what is left |
| ScanTokens.PositionScans | src/lib/vsprintf.c:2011-2017 | %n stores the index reached and takes nothing |
| ScanTokens.PercentScans | src/lib/vsprintf.c:2031-2035 | %% takes a %, or ends the scan at once |
| ScanTokens.SkipScans | src/lib/vsprintf.c:1946-1955 | %* takes input up to white space and format up to white space or %, and stores nothing |
| ScanTokens.LiteralScans | src/lib/vsprintf.c:1935-1940 | Any other character takes itself, or stops the scan |
| ScanTokens.SpaceScans | src/lib/vsprintf.c:1926-1933 | White space in the format takes all white space at hand, none included |
| ScanTokens.ScanEnds | src/lib/vsprintf.c:2118-2126 | With input or format used up only a %n at hand is stored |
| ScanTokens.Counted | src/lib/vsprintf.c:1985-2017 | Every store but that of %n counts as a conversion |
| ScanIntegers.IntegerScans | src/lib/vsprintf.c:2018-2115 | Integer conversions skip white space, take a minus sign for d and i and all digits of their base, %i finding the base out, and store the value in the bytes and signedness of the length; without a digit the scan stops there; %zd does not read a sign |
| ScanWords.WordsPrint | src/lib/vsprintf.c:1275-1433 | "%s %s .." prints the words with single spaces between them |
| ScanWords.WordsRoundTrip | src/lib/vsprintf.c:1914-2129 | Scanning them with the same format gives the words back if and only if each has a character, no white space and at most 32767 characters |
| PrintScan.FormatRenders | src/lib/vsprintf.c:1275-1433 | Integer directives separated by spaces print sign and numeral of every argument, separated by spaces |
| PrintScan.FormatScans | src/lib/vsprintf.c:1914-2129 | Scanning that text stores every integer again, in the width and signedness of its conversion |
| PrintScan.ScanUndoesPrint | src/lib/vsprintf.c:1914-2129 | For every list of %d, %i, %u, %x, %X, %o with hh, h, l, ll or none, and all argument bits, scanning the printed text returns the number of conversions and every value, the most negative included |
| PrintScan.PrintThenScan | src/lib/vsprintf.c:1914-2129 | The same of the two functions run one after the other over a buffer that is large enough |
| Ip6Text.BestGapIsLongest | src/lib/vsprintf.c:800-813 | The run chosen is the leftmost of the longest runs of at least two zero groups, and there is none only if no such run exists (section 4.2.3 of RFC 5952) |
| Ip6Text.TextExpands | src/lib/vsprintf.c:777-855 | Reading the text, filling the gap with zero groups, gives back all eight groups, dotted tail or not |
| Ip6Text.OneDouble | src/lib/vsprintf.c:816-824 | Two colons in a row stand exactly where the chosen run was, so there is one "::" or none (section 4.2 of RFC 5952) |
| Ip6Text.HexLower | src/lib/vsprintf.c:829-843 | A group is one to four of 0-9 and a-f, and begins with 0 only if it is 0 (sections 4.1 and 4.3 of RFC 5952) |
| Ip6.Ip4String | src/lib/vsprintf.c:727-774 | Writes the four quads, in either order, padded or not, with dots, within 15 characters and a terminator |
| Ip6.LongestRun | src/lib/vsprintf.c:800-813 | The two search loops find the chosen run |
| Ip6.PutGroup | src/lib/vsprintf.c:829-843 | A group is written in lower case without leading zeros (sections 4.1 and 4.3 of RFC 5952) |
| Ip6.CompressedString | src/lib/vsprintf.c:777-855 | Writes the compressed text and a terminator within 46 characters |
| Bithacks.CastingOut | src/include/bithacks.h:11-26 | A number and its digit sum differ by a multiple of base - 1, in every base |
| Bithacks.Counts32 | src/include/bithacks.h:11-16 | count_1s is the number of one bits of every 32-bit word |
| Bithacks.Counts64 | src/include/bithacks.h:19-26 | count_1s_64 is the number of one bits of every 64-bit word |
| Bithacks.FindsLowestZero | src/include/bithacks.h:56-61 | last_0_pos is the index of the lowest zero bit if and only if the word is not all ones, for which it is 31 |
| Bithacks.SetsLowestZero | src/include/bithacks.h:64-67 | set_last_0 adds exactly the bit of the lowest zero, and leaves the word of all ones alone |
| Bithacks.LowestZeroIs | src/include/bithacks.h:56-61 | Below the lowest zero bit there are only ones |
| Bithacks.RoundsUp | src/include/bithacks.h:29-40 | pow2roundup is the least power of two not below x; it is an int if and only if x <= 2^30 |
| Bithacks.RoundsDown | src/include/bithacks.h:43-53 | pow2rounddown is the greatest power of two not above x |

## Left out

- LzoDecompress.DecompressSafe: requires a stream in which no code is cut off before its second byte and whose first byte exists, because the C code reads those bytes unchecked; every other malformed stream is covered.
- LzoDecompress.Begin: has the same precondition.
- Printf.Vsnprintf: does not model what `%n` stores nor the clamp for a buffer that reaches the end of the address space; `%n` takes its argument and prints nothing.
- Printf.PrintToken: the texts of the extended `%p` forms (symbols, resources, MAC and IP addresses, UUIDs) are one arbitrary function of format suffix, pointer and spec.
- BinPrintf.VbinPrintf: does not model error pointers passed for `%s`; a slot that points to no string counts as a null pointer.
- FormatGrammar.FormatMeans: leaves out `%p`, whose suffix is read by the driver, and characters that are no conversion; PlainFormats.PointerPrints and PlainFormats.UnknownPrints cover single ones.
- BinLayout.PackedLayout: leaves out `%p` and characters that are no conversion; BinLayout.PackedLaid covers all formats.
- FormatDecode.SkipAtoi: integers are unbounded here; the C int overflows on a number of ten digits or more.
- Scanf.Vsscanf: returns the stored values in order instead of writing through pointers, so that pointers to the same object are not modelled.
- Bithacks.RoundsUp: above 2^30 the sum overflows the C int; the result is stated before that.
- Ip6.CompressedString: whether the address is IPv4-mapped or ISATAP is a parameter; those predicates are not part of this model.
- Lengths are unbounded: wrap-around of size_t and of the int that printf returns is not modelled.
- The mutex slow path itself, and overflow of the counter after 2^31 waiters.
- The strict_strto functions and the wrappers sprintf, snprintf, scnprintf, vscnprintf, bprintf and sscanf, which add nothing hard.
- unset_bit_n, string.c, ctype.c beyond the classes used, hexdump.c, string_helpers.c and the assembly versions: easy loops and tables.
- The loader under src/core, the system call layer, the allocator, and the rest of linux-include: declarations, I/O and inline assembly.
