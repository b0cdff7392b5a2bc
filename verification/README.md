# Verified models of Go standard library algorithms

A Dafny model of the hardest algorithms in this slice of the Go standard library, with proofs of
what they are for. Every claim is about all inputs, all reachable states or all runs.

* **Floating point on bit patterns** (`Words`, `Float64`, `DoubleWord`, `Fma`, `Sqrt`, `Scaling`,
  `Mod`, `Rounding`). A float64 is its 64-bit pattern; every finite one is an integer number of
  units of 2^-1074, so rounding to nearest, ties to even, is stated over the integers
  (`Float64.RoundsTo`, with `RoundNE` the unique answer). 64-bit wrap-around is explicit.
* **Concurrent protocols** (`ContextTree`, `ContextInvariant`, `ContextSteps`, `ContextRuns`,
  `ContextProgress`, `ContextCalls`, `ContextSync`, `Pipe`, `PipeRuns`). A state datatype, the atomic
  steps of the code, an inductive invariant, and theorems about every interleaving of any number of
  operations: what every state keeps, and what a call has brought about by the time it returns.
* **Printers and parsers** (`Grammar`, `MediaType`, `MediaTypeLoops`, `MediaTypeParts`,
  `MediaTypeLists`, `EncodedWord`, `EncodedWordLoops`, `EncodedWordHeader`, `Html`, `HtmlInPlace`,
  `HtmlNumeric`, `HtmlNamed`, `Numerals`, `FmtInteger`, `FmtReading`, `FmtDirective`). Functions on
  bytes carry the round-trip laws; the source's loops are methods proved to compute them.
* **Buffered streams** (`ByteSource`, `Utf8`, `Splitting`, `Scanner`, `TokenLaws`, `Reader`,
  `RuneReader`). A reader that delivers its bytes in arbitrary chunks, with empty reads in between,
  and the classes that must hide the chunks.
* **Destination address selection** (`AddrSelect`, `AddrOrder`, `AddrClasses`).

`Options` and `Bytes` hold shared definitions.

Results that a reader might not expect:

* `ldexp` adds two exponents to its argument in 64 bits. `Scaling.LdexpCorrect` shows that it is
  correctly rounded exactly when that sum does not wrap; `Scaling.LdexpWraps` gives an input, 0.5
  with the least int, for which the result is +Inf instead of 0.
* A Scanner's tokens must be shorter than its buffer, and for small buffers that is not enough.
  `Splitting.ExactLimits` gives the exact limits: one byte for lines and bytes, three for words, one
  or four and more for runes. Below them `Splitting.ShortFails` gives an input with short tokens
  that is doomed, and `Scanner.ScanAll` shows that every scan of a doomed input ends in ErrTooLong.
* A media type survives the round trip exactly when its parameter names are lower-case tokens
  without a star (`MediaType.RoundTripIff`).
* A parameter value split into numbered parts comes back whole, in whatever order the parts stand,
  unless an encoded part other than the first is empty: its bare equals sign makes the whole header
  invalid (`MediaTypeParts.PartsRoundTrip`).
* A numeric character reference is accumulated in an int32, so a number that is too large can come
  round to another rune: `&#4294967361;` is read as the letter A (`HtmlNumeric.ComesRound`).
  `HtmlNumeric.NumericStandard` gives the exact condition.
* In-place HTML unescaping depends on the entity table: the entry the source keeps commented out
  would break it (`Html.WideEntity`).
* fmt's readRune replays an encoding error that was unread with size 3, the length of the
  replacement rune, where it was first read with size 1; `RuneReader.SizeAgain` and
  `RuneReader.Replay` give the exact condition.
* Rule 9 of the address comparison would break transitivity if it were not for the policy table
  (`AddrOrder.NeedsTable`).

## Model

| member | source | states |
|---|---|---|
| `Float64.RoundNEIsNearest` | math/fma.go:93-95 | the reference rounding picks a float64 at least as near the exact ratio as every other one, the even one of two at equal distance |
| `Float64.RoundsToUnique` | math/fma.go:169-181 | at most one pattern lies between the rounding boundaries of an exact value |
| `DoubleWord.ShlPairExact` | math/fma.go:27-31 | for every shift count, `shl` multiplies the 128-bit pair by 2^n modulo 2^128 |
| `DoubleWord.ShrPairExact` | math/fma.go:33-37 | for every shift count, `shr` is the floor of the 128-bit pair over 2^n |
| `DoubleWord.ShrCompressIsSticky` | math/fma.go:43-63 | `shrcompress` is floor division by 2^n with the low bit set iff a nonzero bit was dropped or it was set |
| `DoubleWord.StickyApproximates` | math/fma.go:39-42 | a sticky shift of an approximation compares with every even bound as the exact value does, so it never changes the rounding |
| `Fma.LeadingZerosPairIs` | math/fma.go:65-71 | `lz` is the number of leading zeros of the 128-bit pair, by the power of two it implies |
| `Fma.SplitExact` | math/fma.go:76-91 | sign, exponent and normalized significand denote the operand exactly, subnormals included |
| `Fma.ProductExact` | math/fma.go:121-135 | the two-word product, normalized to bit 62, is exact |
| `Fma.SumCorrect` | math/fma.go:152-157 | adding aligned significands gives a word that approximates the exact sum up to a sticky bit |
| `Fma.DifferenceCorrect` | math/fma.go:158-167 | the same for subtraction, through any cancellation |
| `Fma.RoundPackCorrect` | math/fma.go:169-181 | rounding a sticky significand gives the correctly rounded result: normal, subnormal, zero or infinite |
| `Fma.CombineCorrect` | math/fma.go:137-181 | swap, exact cancellation, alignment, sum or difference and rounding yield the rounded exact sum |
| `Fma.FmaCorrect` | math/fma.go:95-182 | for all finite x, y, z the result is x*y+z rounded once to nearest even, signs of zero, subnormal results and overflow included |
| `Sqrt.Normalize` | math/sqrt.go:108-120 | the significand lies in [2^52, 2^53) and the value is unchanged, through the loop for subnormals |
| `Sqrt.RootLoop` | math/sqrt.go:125-138 | the bit loop ends with the truncated root and a remainder that is zero iff the root is exact; no step wraps |
| `Sqrt.PositiveSqrt` | math/sqrt.go:108-144 | for every positive finite float64 the result lies strictly between the midpoints around the real root |
| `Sqrt.Sqrt` | math/sqrt.go:100-145 | special cases, and the correctly rounded root otherwise |
| `Sqrt.RootIsNearest` | math/sqrt.go:139-144 | such a result is strictly nearer the root than every other finite float64, so ties cannot occur |
| `Scaling.FrexpExact` | math/frexp.go:24-39 | the fraction is in [1/2, 1) and fraction times 2^exp is the argument, exactly |
| `Scaling.LdexpCorrect` | math/ldexp.go:22-51 | for finite nonzero frac and every int, the result is frac*2^exp correctly rounded if and only if the exponent sum does not wrap |
| `Scaling.LdexpWraps` | math/ldexp.go:30-42 | for 0.5 and the least int as exponent the sum wraps, and the result is infinite where it should be 0 |
| `Scaling.SubnormalTimes` | math/bits.go:61-67 | multiplying a subnormal by 2^52 is exact and gives a normal number |
| `Mod.ShiftCorrect` | math/mod.go:40-47 | the scaled divisor satisfies y*2^k <= r < 2*y*2^k |
| `Mod.Sterbenz` | math/mod.go:47 | the difference of two floats within a factor of two is representable |
| `Mod.ModStep` | math/mod.go:41-48 | one round subtracts exactly a multiple of y and makes r smaller |
| `Mod.Mod` | math/mod.go:29-52 | special cases, and otherwise the exact remainder of the magnitudes with the sign of x |
| `Rounding.TruncCorrect` | math/floor.go:68-81 | the integer toward zero, with the sign of x |
| `Rounding.RoundCorrect` | math/floor.go:100-118 | the nearest integer, half away from zero, through carries into the exponent |
| `Rounding.RoundToEvenCorrect` | math/floor.go:139-157 | the nearest integer, half to even, including the parity taken from the exponent for 1 <= abs(x) < 2 |
| `Rounding.RoundIsSimple` | math/floor.go:90-119 | equals the definition in the comment for every finite float64 |
| `Rounding.RoundToEvenIsSimple` | math/floor.go:128-158 | equals the definition in the comment for every finite float64 |
| `Rounding.RoundOther` | math/floor.go:83-89 | infinities and NaN are unchanged |
| `ContextSteps.NextKeeps` | context/context.go:549-579 | every atomic step of cancel, creation and Err keeps the invariant, and no field that was set changes |
| `ContextRuns.DoKeeps` | context/context.go:475-505 | so does starting any operation or creating any context |
| `ContextRuns.ExecKeeps` | context/context.go:463-505 | and so does every run |
| `ContextRuns.WrittenOnce` | context/context.go:557-568 | no run changes an err, a cause or a closed done channel once set |
| `ContextRuns.PropagationComplete` | context/context.go:484-505 | with nothing in flight, every context below a canceled one short of a WithoutCancel is canceled, closed and has a cause |
| `ContextRuns.RegistryExact` | context/context.go:491-505 | with nothing in flight, c is a child of p iff p is the cancelCtx above c and neither is canceled |
| `ContextRuns.PropagatedError` | context/context.go:569-572 | a context canceled by its parent has the parent's err and cause, at every moment |
| `ContextRuns.ClosedExplained` | context/context.go:561-568 | a closed channel comes with err and cause; with nothing in flight err is set iff the channel is closed, and no mutex is held |
| `ContextRuns.ErrAfterClose` | context/context.go:463-471 | Err returns non-nil only once the channel is closed |
| `ContextRuns.NoFallback` | context/context.go:507-528 | built-in parents never reach the goroutine path, and cancel never lacks an error |
| `ContextCalls.CancelTakesEffect` | context/context.go:549-568 | when a cancel has returned its context has an error, a cause and a closed channel, whichever cancel came first and whatever is in flight |
| `ContextCalls.OwnErrorFrom` | context/context.go:240-271 | in every run, a context not canceled by its parent has the error of some cancel of it in the run, and once set that cancel's cause, or the error itself when none was given |
| `ContextCalls.ErrorFrom` | context/context.go:281-288 | nothing else cancels: every canceled context has the error and cause of a cancel in the run of itself or of a context above it |
| `ContextCalls.CreateTakesEffect` | context/context.go:273-280 | a new context has the kind and parent asked for, and is usable when the call returns |
| `ContextCalls.DoneStays` | context/context.go:448-461 | the channel Done returned stays the context's channel |
| `ContextCalls.ErrWaits` | context/context.go:463-471 | an Err called on a canceled context returns only when the channel is closed |
| `ContextSync.CancelIsSynchronous` | context/context.go:549-579 | when a cancel has returned, every context the caller has below it short of a WithoutCancel is canceled, closed and has a cause, whatever is in flight |
| `ContextSync.SettledChild` | context/context.go:569-574 | a cancel that is through has waited for the cancels of its children that other calls started |
| `ContextProgress.LockOrder` | context/context.go:569-578 | whoever holds a mutex and wants another wants a newer context's; a thread in removeChild holds none |
| `ContextProgress.Progress` | context/context.go:399-413 | no deadlock: while an operation is in flight, some thread can step |
| `ContextProgress.StepsDecrease` | context/context.go:549-579 | every step decreases a well-founded measure, so all operations end in every interleaving |
| `ContextProgress.Completes` | context/context.go:475-505 | from every reachable state the operations in flight run to completion |
| `Pipe.ExecKeeps` | io/pipe.go:50-123 | every run keeps the pipe's invariant |
| `Pipe.OneWriter` | io/pipe.go:76-83 | at most one write is transferring |
| `Pipe.AckOwed` | io/pipe.go:57-61 | a reader owes an acknowledgement exactly when that one writer awaits it, and the handshake is possible |
| `Pipe.Delivered` | io/pipe.go:85-94 | the bytes delivered are what each write handed over, in lock order, and what the reads received, in order |
| `Pipe.HandedOver` | io/pipe.go:85-90 | what a write handed over is its first n bytes |
| `Pipe.WriteResult` | io/pipe.go:91-123 | nil only with everything written; otherwise the reader's close error, or ErrClosedPipe if the write end is closed |
| `Pipe.ReadResult` | io/pipe.go:50-114 | bytes and nil, or no bytes and the writer's close error, or ErrClosedPipe if the read end is closed |
| `Pipe.CloseErrorKept` | io/pipe.go:21-34 | a closed pipe has a stored error, and a stored error never changes |
| `Pipe.ClosedProgress` | io/pipe.go:67-74 | after a close some unfinished operation can step |
| `Pipe.StepsDecrease` | io/pipe.go:76-105 | every step of the operations in flight shortens what remains |
| `PipeRuns.FullRead` | io/pipe.go:57-61 | a read that returns bytes fills its buffer, or returns the last bytes of a write, which returns too |
| `PipeRuns.OpenProgress` | io/pipe.go:85-94 | while a write and a read are in flight on an open pipe, some operation can step |
| `PipeRuns.CallGoesOn` | io/pipe.go:67-105 | a call keeps its arguments, and a close that has returned has closed the pipe and left an error |
| `PipeRuns.StoredFromClose` | io/pipe.go:67-105 | in every run a stored error was given to a close of that end, or is its default |
| `PipeRuns.ReadErrorFrom` | io/pipe.go:108-114 | a failed read returns what a close of the write end was given, or ErrClosedPipe after a close of the read end |
| `PipeRuns.WriteErrorFrom` | io/pipe.go:117-123 | the mirror image for writes |
| `PipeRuns.ReadAfterClose` | io/pipe.go:165-178 | if only the write end is closed, always with e, every failed read returns e |
| `PipeRuns.WriteAfterClose` | io/pipe.go:138-150 | if only the read end is closed, always with e, every failed write returns e |
| `PipeRuns.PlainClose` | io/pipe.go:67-105 | after plain closes of the write end reads return EOF; after plain closes of the read end writes return ErrClosedPipe |
| `Utf8.FullRuneStable` | unicode/utf8/utf8.go:110-127 | more bytes do not change what a full rune decodes to |
| `Utf8.Incomplete` | unicode/utf8/utf8.go:110-127 | what is not full is a first byte and continuation bytes, and decodes as one-byte errors |
| `Utf8.DecodeEncoded` | unicode/utf8/utf8.go:368-406 | decoding undoes encoding of every valid rune, whatever follows |
| `Utf8.EncodeDecoded` | unicode/utf8/utf8.go:157-215 | a multi-byte encoding is the encoding of the rune it decodes to |
| `Splitting.PrefixToken` | bufio/scan.go:297-427 | a token found in a prefix of the input is the next token of the whole input at EOF |
| `Splitting.PrefixSkip` | bufio/scan.go:403-427 | bytes skipped without a token do not change the next token |
| `Splitting.ShortIsRoomy` | bufio/scan.go:197-204 | from the exact limit on, tokens shorter, with their delimiter, than the limit never fill the buffer without progress |
| `Splitting.ShortFails` | bufio/scan.go:334-341 | below it, for each split function and limit, an input with short tokens that is doomed |
| `Splitting.ExactLimits` | bufio/scan.go:267-269 | short tokens are roomy for every input iff the limit is one of the exact ones, and some input with short tokens is doomed iff it is not |
| `Splitting.BetweenRoomyAndDoomed` | bufio/scan.go:177-182 | an input that is neither ends in exactly one full buffer without progress |
| `Splitting.StuckShrinks` | bufio/scan.go:197-204 | a larger buffer is never stuck where a smaller one is not |
| `Scanner.ScanWordsLoop` | bufio/scan.go:403-427 | the two loops compute the split function |
| `Scanner.Scanner.Shift` | bufio/scan.go:190-194 | the unread bytes move to the front of the buffer and stay the same |
| `Scanner.Scanner.Grow` | bufio/scan.go:203-213 | a larger buffer within the maximum, with the same bytes |
| `Scanner.Scanner.Fill` | bufio/scan.go:218-238 | new bytes or an end; ErrNoProgress only after more than 100 empty reads |
| `Scanner.Scanner.MakeRoom` | bufio/scan.go:188-214 | fails exactly when the buffer is full from its start and may not grow |
| `Scanner.Scanner.Scan` | bufio/scan.go:139-240 | the next token of all the remaining input and the rest after it, whatever the chunks; ErrTooLong only if the input is not roomy, and always from a full buffer that may not grow and holds no token; the given buffer is never replaced if the maximum is no larger; it terminates and never panics |
| `Scanner.ScanAll` | bufio/scan.go:139-240 | for a reader that pauses for at most 100 empty reads: all tokens equal those of the split function over the whole input at EOF if each is shorter than the larger of the maximum and the given buffer; ErrTooLong if the input is doomed |
| `TokenLaws.LinesRoundTrip` | bufio/scan.go:344-372 | lines ended by a newline or by a carriage return and a newline, and a last one without, are scanned as exactly their texts |
| `TokenLaws.EveryInputIsLines` | bufio/scan.go:344-372 | every input is such a list of lines |
| `TokenLaws.BytesAreTokens` | bufio/scan.go:297-304 | ScanBytes yields every byte |
| `TokenLaws.RunesAreRange` | bufio/scan.go:306-342 | ScanRunes yields the runes of a range loop, encoded |
| `TokenLaws.TokensAreWords` | bufio/scan.go:399-427 | every token of ScanWords is non-empty and has no white space in it |
| `TokenLaws.TokensAreRuns` | bufio/scan.go:399-427 | the tokens are exactly the maximal runs without white space, in order, as one pass over the runes finds them |
| `Reader.TookConserves` | bufio/bufio.go:216-265 | taking bytes keeps consumed ++ rest |
| `Reader.Reader.Fill` | bufio/bufio.go:99-127 | the stream is unchanged, and there is a new byte or a stored error |
| `Reader.Reader.Peek` | bufio/bufio.go:143-169 | the next n bytes, left in the stream; which error, exactly when |
| `Reader.Reader.Discard` | bufio/bufio.go:177-207 | takes the next bytes, n of them iff there is no error; which error; all that a reader with fewer than 100 empty reads in a row has |
| `Reader.Reader.Read` | bufio/bufio.go:216-265 | p holds the next bytes of the stream, the rest of p is unchanged, and the stream goes on behind them; what is buffered is delivered, as much as fits, with no error; nothing without an error only when nothing was buffered and the one read brought nothing |
| `Reader.Reader.ReadByte` | bufio/bufio.go:267-279 | takes one byte, which can be unread, or reports an error |
| `Reader.Reader.UnreadByte` | bufio/bufio.go:286-301 | gives the last byte consumed back to the stream, exactly when it may |
| `Reader.Reader.ReadRune` | bufio/bufio.go:306-320 | the rune at the front of the whole stream, however it is buffered |
| `Reader.Reader.UnreadRune` | bufio/bufio.go:325-333 | gives the last rune's bytes back, exactly when it may |
| `Reader.Reader.ReadSlice` | bufio/bufio.go:348-387 | takes a line; the error is nil iff it ends in delim, and delim occurs nowhere before |
| `Reader.Reader.CollectFragments` | bufio/bufio.go:447-470 | full buffers without delim and a last fragment that together are the bytes taken |
| `Reader.Reader.ReadBytes` | bufio/bufio.go:478-489 | the shortest prefix of the stream that ends in delim, with an error iff there is none |
| `Reader.UpToUnique` | bufio/bufio.go:472-477 | only one prefix ends in the first delim |
| `Reader.Drive` | bufio/bufio.go:99-489 | over every sequence of calls, consumed ++ buffered ++ unread is the original stream |
| `RuneReader.RuneReader.ReadByte` | fmt/scan.go:314-326 | the next byte of leftovers and input |
| `RuneReader.RuneReader.Collect` | fmt/scan.go:348-357 | reads on only while the rune is incomplete, and then nothing is left over |
| `RuneReader.RuneReader.Finish` | fmt/scan.go:359-363 | bytes read too far are saved in order; all but the last are continuation bytes |
| `RuneReader.RuneReader.ReadRune` | fmt/scan.go:330-367 | the first rune of the remaining bytes, or the one that was unread |
| `RuneReader.RuneReader.UnreadRune` | fmt/scan.go:369-376 | the previous rune comes next |
| `RuneReader.ReadAll` | fmt/scan.go:330-367 | the runes read are those of a range loop over the input |
| `RuneReader.SizeAgain` | fmt/scan.go:331-336 | the rune's length is the number of bytes it was read from iff it was not an encoding error |
| `RuneReader.Replay` | fmt/scan.go:331-376 | what was read and unread is read again, with the same size iff it was not an encoding error |
| `Grammar.TokenCharClass` | mime/grammar.go:40-72 | token characters are the visible ASCII characters other than tspecials |
| `Grammar.NeedsEncodingBytes` | mime/encodedword.go:42-49 | decided rune by rune, it holds iff some byte is not printable |
| `Grammar.HexRoundTrip` | mime/mediatype.go:380-403 | hexadecimal digits read back as written |
| `MediaType.Format` | mime/mediatype.go:21-51 | empty iff the type or a name violates the standard |
| `MediaType.PercentRoundTrip` | mime/mediatype.go:345-378 | percent decoding undoes percent encoding |
| `MediaType.Decode2231RoundTrip` | mime/mediatype.go:239-258 | the RFC 2231 form of a value decodes to it |
| `MediaType.QuoteRoundTrip` | mime/mediatype.go:286-315 | a quoted-string reads back as it was quoted |
| `MediaType.ParamRead` | mime/mediatype.go:318-343 | a parameter's text is read as its name and value, whatever parameter follows |
| `MediaType.PartsBound` | mime/mediatype.go:207-223 | numbered continuations have distinct names, so stitching them terminates |
| `MediaType.RoundTrip` | mime/mediatype.go:142-235 | for every type, and every map with lower-case token names free of stars and any byte values, parsing returns the lower-case type and the map |
| `MediaType.RoundTripIff` | mime/mediatype.go:180-195 | with any other token among the names it does not |
| `MediaType.ParsedNamesClean` | mime/mediatype.go:134-141 | whatever is parsed, every name is lower-case and has no star |
| `MediaTypeParts.PartsRoundTrip` | mime/mediatype.go:200-234 | a value in numbered parts, each a token, a quoted-string or percent-encoded and in any order, is parsed as the parts' values in the order of their numbers, if and only if no encoded part other than the first is empty; else InvalidParameter |
| `MediaTypeParts.StitchParts` | mime/mediatype.go:207-227 | the parts are decoded and put together in the order of their numbers |
| `MediaTypeLists.ListParsed` | mime/mediatype.go:142-235 | any type and list of parameters, in any case, with white space between the parts and a semicolon at the end: DuplicateName iff a name has two values in the same form, else the lower-case type and every parameter, the extended form before the plain one |
| `MediaTypeLists.TypeChecked` | mime/mediatype.go:98-118 | a type is accepted iff it is a token or two with a slash |
| `MediaTypeLists.TypeRejected` | mime/mediatype.go:98-118 | and otherwise which error |
| `MediaTypeLists.RawQuoted` | mime/mediatype.go:293-306 | a backslash that escapes nothing is read literally |
| `MediaTypeLists.QuoteBroken` | mime/mediatype.go:308-315 | a quoted-string without an end, or with a line end in it, is no value |
| `MediaTypeLoops.ConsumeTokenLoop` | mime/mediatype.go:265-272 | the longest prefix of token characters |
| `MediaTypeLoops.ConsumeValueLoop` | mime/mediatype.go:279-316 | a token or a dequoted string |
| `MediaTypeLoops.PercentHexUnescape` | mime/mediatype.go:345-378 | counting, then filling an array of exactly the right size |
| `MediaTypeLoops.WritePercent` | mime/mediatype.go:53-74 | the loop with an offset writes the percent encoding |
| `MediaTypeLoops.WriteQuoted` | mime/mediatype.go:82-93 | the loop with an offset writes the quoted-string |
| `MediaTypeLoops.FormatMediaType` | mime/mediatype.go:21-96 | the whole of FormatMediaType |
| `MediaTypeLoops.ReadParams` | mime/mediatype.go:157-198 | the loop that fills params and continuation, with duplicates and errors |
| `MediaTypeLoops.JoinParts` | mime/mediatype.go:211-232 | the loop over numbered parts joins them as `MediaTypeParts.StitchParts` says |
| `MediaTypeLoops.StitchLoop` | mime/mediatype.go:200-234 | the same parameters in whatever order the map is walked |
| `MediaTypeLoops.ParseMediaType` | mime/mediatype.go:142-235 | the whole of ParseMediaType, whose results `MediaType.RoundTrip`, `MediaTypeLists.ListParsed` and `MediaTypeParts.PartsRoundTrip` give |
| `EncodedWord.QRoundTrip` | mime/encodedword.go:144-157 | Q decoding undoes Q encoding, and no question mark is written |
| `EncodedWord.FindWord` | mime/encodedword.go:244-275 | an encoded-word is found where it stands and taken apart into what it was made of |
| `EncodedWord.EncodedWords` | mime/encodedword.go:114-141 | words of at most 75 bytes that together hold the runes of the string, none split across words |
| `EncodedWord.RoundTrip` | mime/encodedword.go:230-302 | DecodeHeader gives back every string that needed encoding, for a UTF-8 charset |
| `EncodedWordHeader.HeaderMeaning` | mime/encodedword.go:230-302 | text before, between and after encoded-words stays, words are replaced by their contents, white space between two that decode is dropped, and a word that does not decode stays |
| `EncodedWordHeader.MeaningFails` | mime/encodedword.go:228-229 | decoding fails iff the charset of some word that decodes cannot be read |
| `EncodedWordHeader.Latin1Runes` | mime/encodedword.go:319-322 | iso-8859-1 content becomes the runes its bytes number |
| `EncodedWordHeader.AsciiRunes` | mime/encodedword.go:323-330 | us-ascii content likewise, with the replacement character for other bytes |
| `EncodedWordLoops.WriteQString` | mime/encodedword.go:144-157 | the loop writes the Q encoding |
| `EncodedWordLoops.QEncodeLoop` | mime/encodedword.go:114-141 | the loop with a running length writes the words; its predicted lengths are exact |
| `EncodedWordLoops.EncodeLoop` | mime/encodedword.go:35-66 | the whole of Encode for the Q encoding |
| `EncodedWordLoops.QDecodeLoop` | mime/encodedword.go:362-388 | the loop into an array as long as the input decodes, or fails on the same inputs |
| `EncodedWordLoops.DecodeHeaderLoop` | mime/encodedword.go:230-302 | the loop over words, white space between them dropped |
| `Html.RoundTrip` | html/escape.go:166-186 | unescaping undoes escaping for every byte string |
| `Html.ReferFits` | html/escape.go:56-164 | a reference never stands for more bytes than it takes up |
| `Html.WideEntity` | html/entity.go:2163-2166 | with the entry left out of the table it would |
| `Html.PrefixEntity` | html/escape.go:149-158 | the longest prefix of at least two bytes that is an entity |
| `HtmlNumeric.NumericStands` | html/escape.go:68-120 | a decimal or hexadecimal reference, with a semicolon or without, stands for the rune its digits denote as an int32, repaired, and takes up its whole text; one of three bytes or fewer is none |
| `HtmlNumeric.NumericStandard` | html/escape.go:111-117 | that is the rune of the HTML standard if and only if the number does not exceed 0x10FFFF or does not come round to a rune |
| `HtmlNumeric.ComesRound` | html/escape.go:82-98 | 2^32 + 65 is read as the letter A, where the standard gives the replacement character |
| `HtmlNumeric.RuneRoundTrip` | html/escape.go:68-120 | writing a rune as its number and unescaping gives it back, unless it is 0 or 0x80 to 0x9F |
| `HtmlNamed.EntityStands` | html/escape.go:125-148 | an entity's name, read as far as it goes, stands for its one or two runes |
| `HtmlNamed.PrefixStands` | html/escape.go:149-158 | any other name stands for its longest prefix of two to six bytes that is an entity, and the rest follows |
| `HtmlNamed.NoEntityStays` | html/escape.go:139-163 | anything else is plain text |
| `HtmlInPlace.UnescapeEntity` | html/escape.go:56-164 | writes the reference's text at dst, keeps dst <= src and leaves the bytes behind the reference alone |
| `HtmlInPlace.UnescapeString` | html/escape.go:187-214 | in-place unescaping equals the reference that writes elsewhere |
| `AddrSelect.FirstIsLongest` | net/addrselect.go:279-294 | in a table sorted by length the first match is the longest matching prefix |
| `AddrSelect.TableClassifies` | net/addrselect.go:220-277 | every address has one in the policy table |
| `AddrSelect.Classify` | net/addrselect.go:283-294 | the loop finds the first match |
| `AddrSelect.ContainsBits` | net/addrselect.go:288-292 | a prefix contains the addresses that agree with it in its first bits |
| `AddrSelect.Precedence35` | net/addrselect.go:228-234 | precedence 35 is given to IPv4 addresses, mapped or not, and to no other |
| `AddrSelect.CommonBitsExact` | net/addrselect.go:347-367 | the count is the number of leading bits in common, no fewer and no more |
| `AddrSelect.CommonPrefixLoop` | net/addrselect.go:335-368 | the nested loops compute it, capped at 64 bits for IPv6 |
| `AddrOrder.CompareIsLex` | net/addrselect.go:90-208 | the rules compare keys of six numbers lexicographically |
| `AddrOrder.CompareAntisymmetric` | net/addrselect.go:86-90 | antisymmetric in sign |
| `AddrOrder.CompareTransitive` | net/addrselect.go:90-208 | transitive, also in "neither is preferred" |
| `AddrOrder.NeedsTable` | net/addrselect.go:190-203 | without the fact about the table the comparison is not transitive |
| `AddrOrder.StableSortSorts` | net/addrselect.go:35 | a stable sort by it is sorted, a permutation, and keeps equals in order |
| `AddrOrder.StableSortUnique` | net/addrselect.go:35 | there is only one such result |
| `AddrOrder.SortWithSrcs` | net/addrselect.go:21-39 | the slice is overwritten with that result |
| `AddrClasses.Policy` | net/addrselect.go:220-277 | precedence and label by the class of the address: loopback, native, IPv4, 6to4, Teredo, unique local and so on |
| `AddrClasses.MappedAlike` | net/addrselect.go:283-287 | an IPv4-mapped address has the attributes of the IPv4 address |
| `AddrClasses.ScopeOf6` | net/addrselect.go:308-323 | the scope of every kind of IPv6 address |
| `AddrClasses.ScopeOf4` | net/addrselect.go:308-311 | link-local for 127/8 and 169.254/16, else global |
| `AddrClasses.SuitedFirst` | net/addrselect.go:116-171 | a destination whose source has its scope and label goes before every one of a class of lower precedence, so native IPv6 before IPv4 |
| `Numerals.BodyDenotes` | fmt/format.go:236-275 | the digits, leading zeros included, denote the number |
| `Numerals.LeadLength` | fmt/format.go:277-317 | sign and prefixes take at most three bytes, or four before a digit other than 0 |
| `FmtInteger.MagnitudeExact` | fmt/format.go:198-201 | negation on 64 bits gives the exact magnitude, for the least integer too |
| `FmtInteger.Fmt.WritePadding` | fmt/format.go:66-90 | appends exactly n padding bytes, growing the buffer when needed |
| `FmtInteger.Fmt.Pad` | fmt/format.go:93-108 | pads to the width on the side the flags say |
| `FmtInteger.PutDigits` | fmt/format.go:236-272 | the right-to-left loop writes the numeral and stays in the buffer |
| `FmtInteger.Fmt.WriteText` | fmt/format.go:203-317 | 68 bytes, or 3 plus width plus precision, are always enough for sign, prefixes and digits |
| `FmtInteger.Fmt.FormatInteger` | fmt/format.go:197-324 | appends the padded text, restores the flags, never indexes out of range |
| `FmtInteger.TextMeans` | fmt/format.go:197-324 | the text's digits denote the value exactly, are at least as many as the precision, and a minus sign stands first iff it is negative |
| `FmtInteger.FormattedWidth` | fmt/format.go:93-108 | the output is at least as wide as asked for |
| `FmtReading.ReadsBack` | fmt/format.go:197-324 | an independent reader of signed, prefixed numerals gets the value back, for every base, width, precision and flags, except for 0 with precision 0 |
| `FmtReading.LeadShown` | fmt/format.go:279-317 | the sign is the one asked for, plus before space, and behind it stands the prefix of the base, or the digits if none was asked for |
| `FmtReading.BodyDigits` | fmt/format.go:236-275 | digits of the base, in the case asked for |
| `FmtReading.FormattedSides` | fmt/format.go:93-108 | the text and blanks on the side the minus flag says, exactly up to the width |
| `FmtDirective.ParseNum` | fmt/print.go:350-362 | the decimal number at the start, or none when there is no digit or it is too long |
| `FmtDirective.IntFromArg` | fmt/print.go:922-957 | the operand's value if it is an integer of moderate size, or none |
| `FmtDirective.ReadWidth` | fmt/print.go:1075-1097 | the width is the number the digits denote or the operand's magnitude; a negative operand sets the minus flag and clears zero padding |
| `FmtDirective.ReadPrecision` | fmt/print.go:1099-1125 | the precision is the number the digits denote, 0 without digits, or the operand unless it is negative |
| `FmtDirective.FormatWith` | fmt/print.go:1075-1125 | the integer is formatted with the width, precision and flags the format gives, whatever they are |

## Left out

- AfterFunc contexts, custom contexts and the goroutine path of propagateCancel: the tree holds the built-in contexts, and the goroutine path is shown to be unreachable for them; a timer is a cancel that may start at any time.
- Values stored in contexts, deadlines as times, and strings: only cancellation is modelled.
- Memory model: a step of the two protocols is atomic and sequentially consistent, as Go's mutexes, channels and atomic loads are.
- The architecture-specific versions of the math functions, floor and ceil, and all transcendental functions.
- Native float64 multiplication and addition are taken to be correctly rounded (section 4.3.1 of IEEE 754-2008).
- MediaType.Parse: strings.ToLower is modelled on ASCII, so a media type written with non-ASCII letters that Unicode lowers to ASCII is rejected by the model and accepted by the code.
- Grammar.TokenCharClass: the 128-bit masks of isTSpecial and isTokenChar are modelled as the sets of characters they encode.
- FormatMediaType takes the sorted keys as a parameter and is proved for every order of them.
- EncodedWord.Encode: base64 encoding is not modelled; base64 decoding and the charset reader are parameters of DecodeHeader.
- WordDecoder.Decode for a single word.
- HtmlInPlace.UnescapeString: the entity tables are a parameter, constrained by the length fact the source states for them.
- Html.RoundTrip: the replacer behind EscapeString is modelled by its specification, one byte at a time.
- Reader: ReadLine, WriteTo, Reset, ReadString and the whole of bufio.Writer; a reader that breaks the contract of io.Reader.
- Reader.Reader.ReadSlice and Reader.Reader.Peek return values, not slices of the buffer, so that they become invalid at the next read is not modelled; the same holds for Scanner's token.
- Scanner: split functions supplied by the caller, ErrFinalToken, and calls to Buffer or Split after Scan.
- Scanner.Scanner.Scan: the count of empty tokens is left out; the model asserts that the built-in split functions never give a token without progress.
- RuneReader.RuneReader.ReadRune: after an error other than EOF the bytes of an incomplete rune are lost, as in the source.
- AddrOrder.StableSort: slices.SortStableFunc is taken by its specification, which AddrOrder.StableSortUnique shows to determine the result.
- Rules 3, 4 and 7 of RFC 6724, which the source leaves out as well; srcAddrs, which opens sockets; IPv6 zones.
- FmtInteger.PutDigits: the four loops for bases 2, 8, 10 and 16 are one loop with the base as a parameter.
- FmtDirective.FormatWith: explicit argument indexes, the error strings for bad widths, and everything else doPrintf does.
- Reflection, float formatting and scanning in fmt beyond readRune.
