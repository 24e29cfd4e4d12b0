# printf-compat in Dafny

This project models the core of `printf-compat`, a Rust crate that
reimplements C's `printf` format-string handling. The crate has three
parts, and each has its own modules here.

- **Scanner.** `format` splits a C format string on `%`. It parses each
  directive (flags, width, precision, length modifier, conversion byte)
  into an `Argument`. It hands the arguments and the literal runs between
  them to a caller-supplied handler, and it returns the sum of the
  handler's results, or -1.
- **Argument data model.** This covers `Flags`, `DoubleFormat`,
  `SignedInt`, `UnsignedInt`, `Specifier` and `Argument`.
- **Output handlers.** `fmt_write` writes through `core::fmt` and
  `io_write` writes through `std::io`. They use the decision trees that
  pick a Rust format spec for each argument, the truncate-then-pad routine
  `write_bytes`, and the byte counters.

Files:

| file | module | contents |
|---|---|---|
| `ctypes.dfy` | `CTypes` | Bytes, the C integer types of an LP64 target, and the `as` casts between them: wrap-around, sign extension to `usize`, and `usize as c_int`. |
| `argument.dfy` | `Arguments` | `Flags` as a set with its `u8` bit encoding. `DoubleFormat` with `IsUpper`/`SetUpper`/`Family`. `SignedInt`/`UnsignedInt` and their widenings. `Specifier`, `Argument` and `FromSpecifier`. |
| `varargs.dfy` | `VarArgs` | The variadic argument list as a sequence of tagged slots read at a cursor. Reads as each C type, and C strings cut at the first NUL. |
| `parser.dfy` | `Parser` | `next_char`, `split`, `parse_flags`, `parse_width`, `parse_precision`, `parse_length`, `parse_signed`/`parse_unsigned`, the conversion match, and `format`. Each is a specification function, and the looping code is also given as methods proved against those functions. |
| `format_props.dfy` | `FormatProperties` | What `format` returns in terms of the handler's results, and when it rejects a directive. The calls it makes for plain text, `%%`, a trailing `%`, an unknown conversion and `*`. |
| `render.dfy` | `CoreFmt` | The parts of `core::fmt` the handlers rely on, as explicit specification functions: digit strings in bases 8, 10 and 16, UTF-8 validity and character counts, `pad_integral` and `pad`, and a reader that parses a rendered integer back. |
| `output.dfy` | `Output` | `define_numeric`, `define_unumeric`, `write_str`, and the `Char`/`Pointer` branches of `fmt_write`, which produce the chunks `core::fmt` writes. `write_bytes`. The writer classes `Sink`, `DummyWriter`, `WriteCounter` and `IoWriteCounter`. The methods `FmtWrite` and `IoWrite` with their return codes. |
| `output_props.dfy` | `OutputProperties` | Both handlers: read-back, width, sign, ignored flags, string truncation and padding, the writer getting a prefix of the text, and the two handlers agreeing. |
| `printf_props.dfy` | `PrintfProperties` | `format` driven by `fmt_write` and `io_write` end to end: plain text, `%%` and `%%%%`. |
| `fixtures.dfy` | `Fixtures` | Concrete conversions from tests/tests.rs, with the exact text and count. |

Modelling choices:

- **Strings and arguments.** A C string is a `seq<byte>`. The `VaList` is
  a `seq<ArgValue>` with a cursor that only moves forward, one slot per
  read.
- **Handlers.** A handler is a function `(S, Argument) -> (S, int)` over a
  state `S` of its own choosing. This covers any deterministic `FnMut`.
  For `fmt_write` and `io_write` the state is the bytes the writer holds.
- **Writers.** A writer is a `Sink`. Whether it takes a write is a fixed
  function (an `Acceptor`) of what it holds and the bytes offered, and a
  refused write changes nothing. A rendering is the sequence of chunks
  that `write!` passes to `write_str`. `Emit` feeds them to the writer one
  by one and stops at the first refusal.
- **Floats.** Float digits come from a `FloatRenderer` parameter, because
  the crate leaves them to Rust's float formatting.
- **Integer width.** Integers are unbounded. Every cast the source
  performs is written out: `width as usize`, `as c_int`,
  `wrapping_sub(1)`, and the `c_int` arithmetic of the width parser.
- **Two corrections.** The two places listed under "## Findings" exist
  twice, as written and corrected. `NumericLayoutAsWritten`,
  `NumericChunksAsWritten`, `DefineNumericAsWritten`, `IoStepAsWritten`
  and `IoWriteAsWritten` follow the code. The handler chain that the other
  members use (`DefineNumeric`, `FmtChunks`, `RenderFmt`, `FmtStep`,
  `FmtWrite`, `IoStep`, `IoWrite`) uses the corrected versions:
  `saturating_sub(1)` at src/output.rs:81, and -1 for `%n` through
  `io_write`. `NumericAsWrittenAgrees` shows that the two versions of the
  macro differ only at width 0.

Where the code differs from C's `printf` in its intended behaviour too,
the model follows the code:

- A negative `*` width is not turned into left alignment. It reaches
  `core::fmt` as a huge `usize`.
- Precision is ignored for integers.
- `%#x` of 0 prints `0x0`.
- `%#o` prints the prefix `0o`.
- `%g` and `%a` print like `%f`.
- `io_write` measures a string's precision in bytes, while `fmt_write`
  measures it in characters.

## Model

| member | source | states |
|---|---|---|
| CTypes.WrapSigned | src/parser.rs:40 | The `c_int` result of width arithmetic is in range, differs from the exact value by a multiple of 2^32, and equals it when that fits. |
| CTypes.AsUsize | src/output.rs:47 | `width as usize` is the value in [0, 2^64) congruent to the width modulo 2^64: the width itself when non-negative, and width + 2^64 (at least 2^64 - 2^31) when negative. |
| CTypes.UsizeSubOne | src/output.rs:81 | `wrapping_sub(1)` subtracts one, except that 0 wraps to 2^64 - 1. |
| CTypes.UsizeAsCInt | src/output.rs:296 | `count as c_int` differs from the count by a multiple of 2^32, and is the count itself whenever it fits in an `i32`. |
| Arguments.BitsEncodeMembership | src/lib.rs:136-170 | A flag is in the set iff its bit is set in the `u8` encoding. |
| Arguments.BitsInjective | src/lib.rs:136-170 | Two flag sets with the same bit pattern are equal, so the six constants are distinct bits. |
| Arguments.BitsOfInsert | src/lib.rs:136-170 | Inserting a flag adds its bit once; inserting it again changes nothing. |
| Arguments.DoubleFormat.SetUpper | src/lib.rs:200-232 | `is_upper(set_upper(f, u)) == u`, and the family (normal, scientific, auto, hex) is kept. |
| Arguments.FamilyAndCaseDetermineFormat | src/lib.rs:174-198 | Family and case together identify a `DoubleFormat`. |
| Arguments.SetUpperOwnCase | src/lib.rs:195-232 | `set_upper(f, is_upper(f)) == f`. |
| Arguments.SetUpperTwice | src/lib.rs:200-232 | Of two `set_upper` calls, only the last counts. |
| Arguments.SignedToI64 | src/lib.rs:246-257 | The widened value lies in the range of the variant's C type. |
| Arguments.SignedToI64RoundTrip | src/lib.rs:246-257 | Widening to `i64` preserves the value of every variant: the same variant built from the widened value is the original. |
| Arguments.SignNegativeIffWidenedNegative | src/lib.rs:259-270 | `is_sign_negative` holds iff the widened `i64` is negative. |
| Arguments.UnsignedToU64 | src/lib.rs:296-307 | The widened value lies in the range of the variant's C type, and so in [0, 2^64). |
| Arguments.UnsignedToU64RoundTrip | src/lib.rs:296-307 | Widening to `u64` preserves the value of every variant. |
| Arguments.FromSpecifier | src/lib.rs:370-379 | `Argument::from(s)` has no flags, width 0, no precision and specifier `s`. |
| VarArgs.ReadSigned | src/parser.rs:77-87 | Reading a signed slot gives a value of the requested width, which is the slot's value when that fits. |
| VarArgs.ReadUnsigned | src/parser.rs:88-98 | Reading an unsigned slot gives a value of the requested width, which is the slot's value when that fits. |
| VarArgs.ReadCInt | src/parser.rs:35 | A `*` width or precision reads the slot's value when that fits in a `c_int`. |
| VarArgs.UntilNul | src/parser.rs:193 | `CStr::from_ptr` takes the longest NUL-free prefix: the result is a prefix, has no NUL, and is followed by a NUL if shorter. |
| VarArgs.ReadCStr | src/parser.rs:193 | A `%s` argument has no NUL byte. |
| Parser.NextChar | src/parser.rs:9-11 | Drops the first byte, and leaves an empty slice empty. |
| Parser.SplitPieces | src/parser.rs:129 | No piece contains `%`, and there is one piece more than the string has `%` bytes. |
| Parser.JoinSplit | src/parser.rs:129 | Joining the pieces with `%` gives the format string back. |
| Parser.SplitJoin | src/parser.rs:129 | Splitting a `%`-join of `%`-free pieces gives the pieces back. |
| Parser.SplitPlain | src/parser.rs:129 | A string without `%` is a single piece. |
| Parser.SplitPrefix | src/parser.rs:129 | A `%`-free prefix followed by `%` is the first piece, and the rest splits on its own. |
| Parser.FlagOfInjective | src/parser.rs:17-25 | Different flag bytes denote different flags. |
| Parser.FlagRunLength | src/parser.rs:16-27 | The flag loop consumes a run of flag bytes that is maximal: the next byte, if any, is not a flag. |
| Parser.FlagRunLengthUnique | src/parser.rs:16-27 | That maximal run is the only one: any run of flag bytes ended by a non-flag has its length. |
| Parser.UnionOfContains | src/parser.rs:17-25 | A flag is in the result iff some byte of the run denotes it. |
| Parser.UnionOfDependsOnlyOnBytes | src/parser.rs:17-25 | Two runs with the same set of bytes give the same flags, so repeating or reordering flags changes nothing. |
| Parser.ParseFlags | src/parser.rs:14-29 | The loop computes the flag field, and the remaining text is empty or starts with a non-flag byte. |
| Parser.DigitRunLength | src/parser.rs:37-44 | The width loop consumes the maximal leading run of ASCII digits. |
| Parser.DigitRunLengthUnique | src/parser.rs:37-44 | That digit run is the only maximal one. |
| Parser.WrapSignedStep | src/parser.rs:40 | Wrapping `width * 10 + digit` to `c_int` at every step gives the same result as wrapping once at the end. |
| Parser.WidthFieldNoDigits | src/parser.rs:33-45 | With no `*` and no digit, the width is 0 and the input is returned unchanged, with no argument read. |
| Parser.WidthFieldDigits | src/parser.rs:37-45 | A digit run whose value fits in `c_int` gives that decimal value and the text after the run. |
| Parser.ParseWidth | src/parser.rs:32-46 | The loop computes the width field: a digit run, or `*` consuming one byte and one argument. |
| Parser.PrecisionFieldBareDot | src/parser.rs:49-57 | A `.` with no digits and no `*` gives precision `Some(0)`. |
| Parser.ParsePrecision | src/parser.rs:49-57 | Computes the precision field: `None` with the input unchanged unless it starts with `.`. |
| Parser.ParseLength | src/parser.rs:102-116 | The consumed prefix is the modifier's text, and the longest one applies: `hh` over `h`, `ll` over `l`, and none when no modifier letter comes first. |
| Parser.ParseLengthOfText | src/parser.rs:102-116 | Parsing a modifier's text followed by a compatible rest gives that modifier and that rest. |
| Parser.LengthTextDistinct | src/parser.rs:102-116 | A format text determines its length modifier and remainder uniquely. |
| Parser.ParseSignedReads | src/parser.rs:77-87 | `parse_signed` reads one slot at the modifier's width, with `z` and `t` both giving `Isize`. |
| Parser.ParseUnsignedReads | src/parser.rs:88-98 | `parse_unsigned` reads one slot at the modifier's width, with `z` and `t` both giving `Isize`. |
| Parser.ParseSignedKeepsFittingValue | src/parser.rs:77-87 | A signed argument that fits the modifier's type reaches the handler unchanged. |
| Parser.ConvertProperties | src/parser.rs:167-198 | A conversion is recognised iff its byte is one of `%diuxXofFeEgGaAscpn`. `%` reads no argument and every other conversion reads one. The case of a float letter is its `is_upper`, and `%n` carries the running total. |
| Parser.ReadDirective | src/parser.rs:156-199 | Flags, width, precision, length and conversion, in that order, give the directive of the specification function. |
| Parser.Call | src/parser.rs:132-141 | One handler call is recorded, and its result is added to `written`. |
| Parser.FormatPiece | src/parser.rs:146-201 | One iteration of `format`'s loop: a literal after `%%`, or a directive and its tail. It stops at the first negative result, or at a directive that cannot be parsed, and reports which. |
| Parser.Format | src/parser.rs:123-203 | The imperative scanner returns the result and final handler state of the reference `FormatSpec`. |
| FormatProperties.CallOk | src/parser.rs:132-141 | Each call is traced against the handler. Its result is counted into `written`, and only a final call can be negative. |
| FormatProperties.ParseDirectiveCount | src/parser.rs:196 | `%n` is given the running total of bytes written so far. |
| FormatProperties.PieceStepOk | src/parser.rs:146-201 | A loop iteration keeps the trace and the running total consistent. A failed one ends with a negative result, and a rejected one leaves the state as it was. |
| FormatProperties.ScanOk | src/parser.rs:146-202 | The whole loop ends in an outcome that is consistent with the handler. |
| FormatProperties.RejectedStep | src/parser.rs:160-197 | A piece is rejected iff it is not literal text after `%%` and `ParseDirective` refuses it, and then the scanner's state is unchanged. |
| FormatProperties.ScanRejectedAt | src/parser.rs:146-202 | A scan that ends in a rejection stopped at a piece that `ParseDirective` refuses, at the final cursor and running total. |
| FormatProperties.FormatRejectedAt | src/parser.rs:123-203 | When `format` rejects, some piece after the first is one that `ParseDirective` refuses. |
| FormatProperties.FormatReturnsSumOrError | src/parser.rs:123-203 | Replaying the recorded calls through the handler gives the final state and the results. Every `%n` argument carries the running total. Only the last result can be negative. `format` returns -1 iff a directive was rejected or the last result is negative, and otherwise the sum of the results, which is then non-negative. |
| FormatProperties.FormatNonFailingHandler | src/parser.rs:132-141 | With a handler that never fails, `format` returns -1 iff it rejected a directive, and otherwise the sum of the handler's results. |
| FormatProperties.SplitTwo | src/parser.rs:129 | `p%q` splits into `p` and `q`. |
| FormatProperties.SplitThree | src/parser.rs:129 | `p%q%r` splits into `p`, `q` and `r`. |
| FormatProperties.FormatPlainText | src/parser.rs:142-144 | Without `%`, there is exactly one call, `Bytes(fmt)`. `format` returns its result, or -1 if it is negative. |
| FormatProperties.EmptyPieceIsPercent | src/parser.rs:160-171 | An empty piece followed by another is a `%` directive that reads no argument. |
| FormatProperties.SplitEscaped | src/parser.rs:129 | `p%%q` splits into `p`, an empty piece and `q`. |
| FormatProperties.ScanFromPieces | src/parser.rs:142-146 | With a handler that never fails, `format` is the scan of the pieces after the first. |
| FormatProperties.ScanEscaped | src/parser.rs:151-171 | The pieces after `p` in `p%%q` give `Percent`, the empty text and then `q` as a literal. |
| FormatProperties.FormatEscapedPercent | src/parser.rs:151-155 | Over `p%%q`, the calls are `Bytes(p)`, `Percent`, `Bytes("")` and `Bytes(q)`, no argument is read, and the result is the sum. |
| FormatProperties.LiteralPieceStep | src/parser.rs:151-155 | After `%%`, the next piece is handed over verbatim and not parsed. |
| FormatProperties.PercentPieceStep | src/parser.rs:160-171 | The empty piece of `%%` yields `Percent` and then the empty text, and marks the next piece as literal. |
| FormatProperties.EmptyLastPieceFails | src/parser.rs:160-162 | An empty final piece, from a lone trailing `%`, has conversion byte 0 and is rejected. |
| FormatProperties.SplitTrailing | src/parser.rs:129 | `p%` splits into `p` and an empty piece. |
| FormatProperties.FormatTrailingPercent | src/parser.rs:160-197 | A lone `%` at the end makes `format` return -1, after the literal before it. When that literal was written, the -1 is a rejection. |
| FormatProperties.UnknownConversionFails | src/parser.rs:197 | A byte that is not a flag, digit, `*`, `.`, length letter or conversion is rejected. |
| FormatProperties.FormatUnknownConversion | src/parser.rs:167-197 | `p%c...` with an unknown `c` makes `format` return -1, after the literal `p` and with no argument read. When `p` was written, the -1 is a rejection. |
| FormatProperties.StarDirective | src/parser.rs:156-172 | `%*.*d` reads the width, then the precision, then the value, from three consecutive slots. |
| FormatProperties.SplitStar | src/parser.rs:129 | `p%*.*dq` splits into `p` and the directive piece. |
| FormatProperties.FormatStarOrder | src/parser.rs:156-172 | Over `p%*.*dq`, the handler gets `p`, then the argument with width, precision and value from slots 0, 1 and 2, then `q`. The cursor ends at 3. |
| FormatProperties.ScanStar | src/parser.rs:156-200 | The directive piece of `%*.*d` is handled as one argument followed by its tail. |
| FormatProperties.DirectiveStep | src/parser.rs:163-200 | A parsed directive is handed over, followed by its tail as literal text. |
| FormatProperties.SplitFixture | src/parser.rs:129 | `a%%%%b` splits into `a`, three empty pieces and `b`, as the `p = a`, `q = b` case of `SplitDoubleEscaped`. |
| FormatProperties.SplitDoubleEscaped | src/parser.rs:129 | `p%%%%q` splits into `p`, three empty pieces and `q`. |
| CoreFmt.DigitsRoundTrip | src/lib.rs:309-359 | The decimal, octal or hex digit string of `n` reads back as `n`. |
| CoreFmt.DigitsCanonical | src/lib.rs:309-359 | A digit string starts with `0` iff the number is 0, so there are no leading zeros. |
| CoreFmt.TakeCharsCount | src/output.rs:41-57 | Truncating to a precision keeps valid UTF-8 and keeps `min(precision, characters)` characters. |
| CoreFmt.TakeCharsAll | src/output.rs:41 | A precision of at least the character count keeps the whole string. |
| CoreFmt.AsciiIsUtf8 | src/output.rs:40 | ASCII is valid UTF-8 with one character per byte, and truncation to `n` characters keeps `n` bytes. |
| CoreFmt.Latin1ToUtf8 | src/output.rs:279 | `data as char` is encoded as one valid UTF-8 character. |
| Output.KeptBytes | src/output.rs:409-410 | `write_bytes` keeps a prefix of the bytes. |
| Output.Sink.Write | src/output.rs:29 | A write the writer accepts appends the bytes; a refused one changes nothing. |
| Output.DummyWriter.WriteStr | src/output.rs:17-22 | The count grows by the length of the string. |
| Output.DummyWriter.WriteChunks | src/output.rs:15-22 | The count grows by the total length of a rendering. |
| Output.WriteCounter.WriteStr | src/output.rs:26-31 | The count grows by the length, and the write is passed on to the inner writer. |
| Output.WriteCounter.WriteChunks | src/output.rs:24-31 | The inner writer gets the chunks in order until one is refused. The count grows by every byte offered, the refused write included, and on success by the total length. |
| Output.IoWriteCounter.WriteAll | src/output.rs:390-395 | An accepted `write_all` appends and counts the bytes; a refused one changes nothing. |
| Output.IoWriteCounter.WriteChunks | src/output.rs:388-395 | The chunks are written in order until one is refused. The count grows by exactly the bytes the inner writer took, so a refused write is not counted, and on success by the total length. |
| Output.IoWriteCounter.WriteSpaces | src/output.rs:414-421 | The padding loop writes `n` single spaces, and counts exactly the ones the inner writer took. |
| Output.OfferedCountsRefused | src/output.rs:24-31 | Of one sequence of writes, the bytes offered equal the bytes taken when nothing is refused, and otherwise exceed them by the length of a write the writer refused. |
| Output.DefineNumericAsWritten | src/output.rs:61-161 | The macro's decision tree for signed values, as written, gives the chunks of `NumericChunksAsWritten`. |
| Output.DefineNumeric | src/output.rs:61-161 | The corrected macro, with `saturating_sub(1)` at line 81, gives the chunks of `NumericChunks` (see Findings). |
| Output.RenderFmt | src/output.rs:244-294 | The dispatch of `fmt_write`, with the corrected `define_numeric`, gives the chunks of `FmtChunks`, or no writes for `%n` and for non-UTF-8 strings. |
| Output.FmtWrite | src/output.rs:234-300 | The writer's new contents and the return code of `fmt_write`, with the corrected `define_numeric`, are those of `FmtStep`. |
| Output.WriteBytes | src/output.rs:402-424 | `write_bytes` writes the kept bytes and the space padding in order, stopping at a refusal, and counts them. |
| Output.IoWriteArgument | src/output.rs:440-454 | `io_write`'s dispatch writes the chunks of `IoChunks`, and writes nothing for `%n`. |
| Output.IoWriteAsWritten | src/output.rs:430-460 | The writer's new contents and the return code of `io_write` as written are those of `IoStepAsWritten`, which gives 0 for `%n`. |
| Output.IoWrite | src/output.rs:430-460 | The corrected `io_write`: the writer's new contents and the return code are those of `IoStep`, which reports `%n` as an error (see Findings). |
| OutputProperties.NumericText | src/output.rs:61-161 | The text of a signed conversion, in order: leading spaces, the sign, the zero padding, the digits and trailing spaces. |
| OutputProperties.NumericLength | src/output.rs:61-161 | A signed conversion is `max(width, digits + sign)` bytes long, with a sign byte for a negative value, `+` or space. |
| OutputProperties.NumericSignShown | src/output.rs:67-159 | The first non-space byte is `-` iff the value is negative, and `+` iff it is non-negative and `+` was given. |
| OutputProperties.NumericReadBack | src/output.rs:61-161 | With any flags and width, the text of a signed integer parses back to the value. |
| OutputProperties.SpaceFlagLeadsWithSpace | src/output.rs:111-159 | With the space flag, no `+` and a non-negative value, the text starts with a space and is `max(width, digits + 1)` long. |
| OutputProperties.SpaceZeroText | src/output.rs:111-129 | With space and `0`, the text is a space, then zeros up to the width, then the digits. |
| OutputProperties.PlusOverridesSpace | src/output.rs:93-110 | With `+`, the space flag changes nothing. |
| OutputProperties.LeftIgnoresZero | src/output.rs:67-92 | With `-`, the `0` flag changes nothing. |
| OutputProperties.NumericIgnoresGroupingAndAlternate | src/output.rs:61-161 | `'` and `#` change nothing for signed values. |
| OutputProperties.LeftSpaceText | src/output.rs:76-83 | With `-`, space, no `+` and a non-negative value, the text is a space, the digits, then spaces up to the width, for every width including 0. |
| OutputProperties.LeftSpaceWithoutWidthAsWritten | src/output.rs:76-83 | As written, `%- d` of a non-negative value with width 0 pads the field to 2^64 bytes. |
| OutputProperties.NumericAsWrittenAgrees | src/output.rs:76-83 | For every width other than 0, the as-written macro and the corrected one give the same chunks. |
| OutputProperties.UnsignedOptionsClosedForm | src/output.rs:163-216 | `define_unumeric` left-aligns with `-`, uses `#`, and zero-pads only with `0` and no `-`. |
| OutputProperties.UnsignedIgnoresSignFlags | src/output.rs:163-216 | `+`, space and `'` change nothing for unsigned conversions. |
| OutputProperties.UnsignedReadBack | src/output.rs:163-216 | An unsigned conversion parses back to its value, after the `0x` or `0o` prefix when `#` was given. |
| OutputProperties.UnsignedLength | src/output.rs:163-216 | An unsigned conversion is `max(width, digits + prefix)` bytes long. |
| OutputProperties.PointerReadBack | src/output.rs:284-292 | A pointer prints as `0x` and hex digits that parse back to the address. |
| OutputProperties.PointerLength | src/output.rs:284-292 | A pointer's text is `max(width, digits + 2)` bytes long. |
| OutputProperties.IntReadBack | src/output.rs:260 | `fmt_write` always renders `%d` and `%i`, and the text parses back to the widened value. |
| OutputProperties.UnsignedConversionReadBack | src/output.rs:248-259 | `%u`, `%o`, `%x` and `%X` always render, and parse back in their radix to the widened value. |
| OutputProperties.PrecisionIgnoredForIntegers | src/output.rs:248-260 | Apart from floats and strings, a conversion's text does not depend on the precision. |
| OutputProperties.StrText | src/output.rs:33-59 | `write_str` fails iff the bytes are not UTF-8. Otherwise it keeps `min(precision, characters)` characters and pads them with spaces to the width in characters, after them with `-` and before them otherwise. |
| OutputProperties.StrWholeWithoutPrecision | src/output.rs:41 | Without a precision the whole string is kept. |
| OutputProperties.CharText | src/output.rs:277-283 | `%c` is one character padded with spaces to the width, left or right per `-`. |
| OutputProperties.WriteBytesText | src/output.rs:402-424 | `write_bytes` keeps `min(len, precision)` bytes and writes `max(width, kept)` bytes, data first with `-` and spaces first otherwise. |
| OutputProperties.EmitWritesPrefix | src/output.rs:24-31 | The writer ends up holding its old contents plus a prefix of the rendering, and all of it when no write was refused. |
| OutputProperties.EmitAllAccepted | src/output.rs:24-31 | A writer that refuses nothing gets the whole rendering. |
| OutputProperties.FmtStepWrites | src/output.rs:295-298 | `fmt_write` writes a prefix of the rendering. It returns -1 for `%n` and invalid UTF-8, with nothing written. On success it returns the rendering's length. |
| OutputProperties.PercentStep | src/output.rs:245 | Both handlers write exactly one `%` and return 1, whatever the flags and width, or return -1 when the writer refuses. |
| OutputProperties.WriteBytesWrittenUnsupported | src/output.rs:293 | `%n` writes nothing and returns -1, through both handlers. |
| OutputProperties.WriteBytesWrittenAsWritten | src/output.rs:444-453 | As written, `io_write` returns 0 for `%n` where `fmt_write` returns -1. |
| OutputProperties.FmtRejectsInvalidUtf8 | src/output.rs:40 | `fmt_write` writes nothing and returns -1 for non-UTF-8 text or `%s`. |
| OutputProperties.IoWritesAnyBytes | src/output.rs:442-443 | `io_write` writes `write_bytes`'s text for any bytes, and returns its length. |
| OutputProperties.StrAgreesWithWriteBytes | src/output.rs:402-424 | On ASCII, `write_str` and `write_bytes` produce the same text. |
| OutputProperties.FmtIoAgree | src/output.rs:430-460 | With a writer that refuses nothing and ASCII strings, `fmt_write` and the corrected `io_write` give the same text and result for every argument. |
| PrintfProperties.FmtLiteral | src/output.rs:246 | A UTF-8 literal run is appended by `fmt_write` and counted by its length. |
| PrintfProperties.IoLiteral | src/output.rs:442 | Any literal run is appended by `io_write` and counted by its length. |
| PrintfProperties.PrintPlainTextFmt | src/parser.rs:142-144 | `format` with `fmt_write` on UTF-8 text without `%`: the writer gets the text, and the result is its length. |
| PrintfProperties.PrintInvalidTextFmt | src/output.rs:40 | `format` with `fmt_write` on non-UTF-8 text without `%`: nothing is written and the result is -1. |
| PrintfProperties.PrintPlainTextIo | src/output.rs:442 | `format` with `io_write` on any text without `%`: the writer gets the text, and the result is its length. |
| PrintfProperties.PrintEscapedPercentFmt | tests/tests.rs:70 | `format` with `fmt_write` on `p%%q` writes `p`, one `%` and `q`, and returns their total length. |
| PrintfProperties.PrintEscapedPercentIo | tests/tests.rs:70 | `format` with `io_write` on `p%%q` writes `p`, one `%` and `q`, and returns their total length. |
| PrintfProperties.DoubleEscapedScan | src/parser.rs:146-202 | Over `p%%%%q`, with a handler that writes each run and counts `%` as 1, the final state is the one after `q` and the result is the total count. |
| PrintfProperties.PrintDoubleEscapedPercentFmt | tests/tests.rs:71 | `format` with `fmt_write` on `p%%%%q` writes `p`, `%%` and `q`, and returns their total length. |
| Fixtures.SpaceZeroInt | tests/tests.rs:94 | `% 010i` of 23125 writes ` 000023125` and returns 10. |
| Fixtures.LeftSpaceInt | tests/tests.rs:101 | `%- 4i` of 23125 writes ` 23125` and returns 6. |
| Fixtures.PlusZeroInt | tests/tests.rs:102 | `%+ 010i` of 23125 writes `+000023125`. |
| Fixtures.LeftZeroInt | tests/tests.rs:106 | `%-010i` of 23125 writes `23125` and five spaces. |
| Fixtures.SpaceZeroOctal | tests/tests.rs:140 | `% 010o` of 23125 writes `0000055125`. |
| Fixtures.LeftSpaceHex | tests/tests.rs:168 | `%- 5x` of 23125 writes `5a55 `. |
| Fixtures.AlternateZeroHex | tests/tests.rs:179 | `%# 010x` of 23125 writes `0x00005a55`. |
| Fixtures.LeftPrecisionString | tests/tests.rs:84 | `%-10.4s` of `world` writes `worl` and six spaces. |
| Fixtures.WideChar | tests/tests.rs:228 | `%10c` of `a` writes nine spaces and `a`. |
| Fixtures.DoubleEscapedPercent | tests/tests.rs:71 | `format` with `fmt_write` on `abc %%%% def` writes `abc %% def` and returns 10. |

## Left out

- Float digits: `Double` conversions take their digits from a `FloatRenderer` parameter, since the crate leaves them to Rust's float formatting. The model keeps the style choice, the default precision of 6, and the sign and padding logic. A NaN is always signed here: one whose sign bit is set gets a `-`, and under `+` one whose sign bit is clear gets a `+` (`%+f` gives `+NaN` and `%+5f` gives ` +NaN`, where Rust prints `NaN` and `  NaN`). Rust's float `Display` signs no NaN. A float is also written as one chunk, whereas `core::fmt` passes its sign and each digit run, `.` and zero run to `write_str` separately, so after a writer refuses part of a float conversion the model does not give the bytes the writer holds.
- Pointer formatting: `{:p}` is platform-defined. It is modelled as `0x` followed by lower-case hex digits.
- `display` and `VaListDisplay` (src/output.rs:311-366): wrappers around `format`, not modelled.
- `FmtWriter` (src/output.rs:374-386): only its effect is modelled, which is that a refused write makes `fmt_write` fail. The `io::Error` value it stores is not.
- Partial writes and `flush`: `write_all` either takes all its bytes or fails, and `flush` is not modelled.
- Undefined reads: a `VaList` read past the end, or of the wrong kind, gives zero or the empty string, where the real behaviour is undefined. A null `%s` pointer (tests/tests.rs:86) is not modelled.
- The `%.*f` argument-order test (tests/tests.rs:220) relies on the calling convention's register classes, which a single cursor does not model.
- `THOUSANDS_GROUPING`: it is parsed into the flags but has no effect on output.
- Width overflow: `width * 10 + digit` (src/parser.rs:40) is modelled as `c_int` wrap-around, which is what a release build does. A debug build would panic instead.
- The `written` accumulator (src/parser.rs:130) is an unbounded integer, so `c_int` overflow of the total is not modelled.
- The test harnesses src/tests.rs and tests/tests.rs, and ci/ensure_no_std/src/main.rs, are not part of this model. Fixtures.dfy restates individual assertions of tests/tests.rs.
- OutputProperties.StrWholeWithoutPrecision: stated only for strings shorter than 2^31 bytes, because a longer length wraps in `len() as c_int`.
- OutputProperties.NumericLength: stated only for digit strings shorter than `i32::MAX` bytes.
- PrintfProperties.PrintPlainTextFmt, PrintfProperties.PrintPlainTextIo, PrintfProperties.PrintEscapedPercentFmt, PrintfProperties.PrintEscapedPercentIo, PrintfProperties.PrintDoubleEscapedPercentFmt: stated only for texts of at most `i32::MAX` bytes and for a writer that refuses nothing.
- Output.DefineNumeric: models the corrected macro, with `saturating_sub(1)` where src/output.rs:81 has `wrapping_sub(1)`. The code as written is `Output.DefineNumericAsWritten`, specified by `NumericChunksAsWritten`. The two differ only for `-` and space with a non-negative value and width 0.
- Output.RenderFmt: renders signed values through the corrected `NumericChunks`, so it differs from `fmt_write` as written in the one case above. The as-written chunks are `NumericChunksAsWritten`. Its `Double` case also differs from Rust for a NaN under `+`, and for a refused write part-way through a float, as the Float digits line says.
- Output.FmtWrite: its `FmtStep` inherits the corrected width of src/output.rs:81. The as-written chunks are `NumericChunksAsWritten`.
- Output.IoWrite: models the corrected `io_write`, which returns -1 for `%n`. The code as written, which returns 0, is `Output.IoWriteAsWritten`, specified by `IoStepAsWritten`.
- OutputProperties.FmtIoAgree: proved for the corrected `io_write`. For `%n` the code as written returns 0 where `fmt_write` returns -1 (`OutputProperties.WriteBytesWrittenAsWritten`).
- Fixtures: each fixture is stated only for an empty writer that refuses nothing.

## Findings

| source | as written | input that shows it | evidently intended | confidence | as-written member | corrected member |
|---|---|---|---|---|---|---|
| src/output.rs:76-83 | With `-` and space, and a non-negative value, the field width is `(width as usize).wrapping_sub(1)`. | `%- d` of 5 with width 0: the width wraps to `usize::MAX`, and the field would be padded to 2^64 bytes. | ` 5`: the width less one, saturating at 0. | not executed | OutputProperties.LeftSpaceWithoutWidthAsWritten | OutputProperties.LeftSpaceText |
| src/output.rs:444-453 | `io_write` passes `%n` to `fmt_write` and returns the writer's status instead of `fmt_write`'s -1. | `%n` through `io_write` returns 0 and writes nothing. | -1, as the documentation of `fmt_write` (src/output.rs:232-233) and `io_write` (src/output.rs:428) says. | not executed | OutputProperties.WriteBytesWrittenAsWritten | OutputProperties.WriteBytesWrittenUnsupported |
