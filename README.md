# dionaea in Dafny

dionaea is a small command-line tool (`src/main.rs`) that converts between
decimal text and headerless binary files of fixed-width little-endian numbers.
`write <type> <file>` reads lines from standard input until a line that is
exactly `q`. It appends the `to_bytes` encoding of every line that parses as
the type, and it reports every line that does not parse on the error stream.
`read <type> <file>` refills a buffer `interim` of `BYTE_LENGTH` bytes from the
file and prints `from_bytes(interim)` after every read that delivered bytes. The
twelve types are `u8`…`u128`, `i8`…`i128`, `f32` and `f64`.

This project models that program and proves what it does:

- `Bytes`: unsigned little-endian arithmetic on byte sequences.
- `Codec`: the `ByteStorage` capability. It has `BYTE_LENGTH`, `to_bytes` and
  `from_bytes` for each type, with two's complement for the signed types and raw
  IEEE-754 bit patterns for the float types. It also has the whole-file
  encoding `EncodeAll` and decoding `DecodeAll`.
- `Decimal`: Rust's `FromStr` and `Display` for the integer types, that is, the
  text side of `l.parse::<T>()` and `println!("{}", num)`.
- `Writer`: the `pipe_write` loop, a method over the input lines.
- `Reader`: the `read_file` loop, a method whose `interim` is an array updated
  in place. It is specified through `Loads`, the sequence of buffer contents
  after each read, and `Printed`, those buffers decoded. The corrected reader
  `ReadFileChecked` is described under Findings.
- `Pipeline`: what `write` and `read` promise together.
- `Dispatch`: `main` and `executor`, the choice of type and operation from
  the command line.

How many bytes each `read` call delivers is a parameter, `sizes`. Call `k`
delivers at most `sizes[k]` bytes. Once `sizes` runs out, a call delivers as
many bytes as it is asked for. A call never delivers more than the buffer holds
or more than the file has left.

A file is a headerless run of whole values, so a partial chunk at its end holds
no value. The code nevertheless decodes the buffer after any read that delivers
at least one byte, including a short final read. The model follows the code
(`Reader.ReadFile`). A reader that stops at the first read that does not fill
the buffer is modelled separately as the corrected reader
(`Reader.ReadFileChecked`).

## Model

| member | source | states |
|---|---|---|
| Bytes.LeValueOfLeBytes | src/main.rs:47-48 | reading back the little-endian bytes of any number below 256^n gives the number |
| Bytes.LeBytesOfLeValue | src/main.rs:43-44 | writing out the value of any byte sequence gives back the same bytes |
| Codec.Width | src/main.rs:31 | `BYTE_LENGTH` is 1, 2, 4, 8 or 16 |
| Codec.RangeTable | src/main.rs:39-209 | each type has 2^8, 2^16, 2^32, 2^64 or 2^128 bit patterns: 8-bit `u8`/`i8`, 16-bit `u16`/`i16`, 32-bit `u32`/`i32`/`f32`, 64-bit `u64`/`i64`/`f64`, 128-bit `u128`/`i128` |
| Codec.ToUnsigned | src/main.rs:148-149 | the two's-complement bit pattern of a value is below the type's modulus |
| Codec.ToUnsignedMod | src/main.rs:148-149 | the bit pattern stored for `v` is `v` modulo 2^bits, also for negative `v` |
| Codec.FromUnsigned | src/main.rs:144-145 | every bit pattern reads as a value the type can hold |
| Codec.FromToUnsigned | src/main.rs:144-149 | reading back the bit pattern of a value gives the value |
| Codec.ToFromUnsigned | src/main.rs:144-149 | storing the value a bit pattern reads as gives the same bit pattern |
| Codec.Encode | src/main.rs:35 | `to_bytes` yields exactly `BYTE_LENGTH` bytes |
| Codec.Decode | src/main.rs:33 | `from_bytes` of a slice of at least `BYTE_LENGTH` bytes yields a value of the type |
| Codec.EncodeByteAt | src/main.rs:176-177 | byte `k` of `to_bytes(v)` is bits 8k to 8k+7 of `v` in two's complement, least significant byte first |
| Codec.DecodeEncode | src/main.rs:172-177 | `from_bytes(to_bytes(v) + rest) == v` for every value and every trailing `rest` |
| Codec.EncodeDecode | src/main.rs:172-177 | `to_bytes(from_bytes(b)) == b` for every `b` of exactly `BYTE_LENGTH` bytes |
| Codec.EncodeInjective | src/main.rs:176-177 | two values with the same encoding are equal |
| Codec.DecodeSign | src/main.rs:172-174 | a signed type decodes to a negative number exactly when its last byte is 128 or more |
| Codec.EncodeSign | src/main.rs:176-177 | a signed value is negative exactly when the last byte of its encoding is 128 or more |
| Codec.CodecExamples | src/main.rs:58-63 | concrete layouts: `i8` 0xFF is -1, `u8` 0xFF is 255, `u16` reads the first two of three bytes, `i16` -2 is FE FF, `u32` 1 is 01 00 00 00 |
| Codec.DecodeAllInRange | src/main.rs:265 | every value decoded from a file fits the type |
| Codec.DecodeFront | src/main.rs:172-174 | `from_bytes` depends on the first `BYTE_LENGTH` bytes only |
| Codec.DecodeAllFirst | src/main.rs:265 | a file with a whole chunk decodes to its first chunk's value, then the rest's values |
| Codec.EncodeAllLength | src/main.rs:232 | a file of `n` written values is `n * BYTE_LENGTH` bytes long |
| Codec.DecodeAllLength | src/main.rs:265 | a file holds as many whole-chunk values as its length divided by `BYTE_LENGTH` |
| Codec.EncodeAllAppend | src/main.rs:232 | writing one more value appends exactly its encoding |
| Codec.DecodeAllEncodeAll | src/main.rs:232 | a file of encoded values decodes chunk by chunk to the same values |
| Codec.EncodeAllDecodeAll | src/main.rs:265 | every file of whole chunks is the encoding of its decoded values, which all fit the type |
| Decimal.Digits | src/main.rs:267 | the decimal numeral of a number is a non-empty run of digits with no leading zero |
| Decimal.Render | src/main.rs:267 | `Display` of an integer is non-empty and starts with `-` exactly when the integer is negative |
| Decimal.SignedValue | src/main.rs:231 | a run of digits with a sign is accepted only if non-empty, all digits and in the type's range |
| Decimal.ParseInt | src/main.rs:231 | `parse` yields only values of the type, and a negative value only for a signed type whose text starts with `-` |
| Decimal.DigitsValueOfDigits | src/main.rs:267 | the digits of `n` read back as `n` |
| Decimal.ParseRender | src/main.rs:231 | every integer of the type parses back from its printed text: `parse(render(v)) == v` |
| Decimal.ParseExamples | src/main.rs:231 | the empty line, a lone `+`, `256` as `u8`, `-0` as `u8`, `abc` and ` 1` are rejected; `+007` is 7 and `-128` fits `i8` |
| Writer.Session | src/main.rs:222-229 | the lines consumed are a prefix of the input containing no `q`, and they stop exactly at the first `q` |
| Writer.AcceptedInRange | src/main.rs:231-232 | every accepted value fits the type |
| Writer.ConsumeLine | src/main.rs:231-233 | one more line adds its value to the output or its diagnostic to the errors, never both |
| Writer.WriteLine | src/main.rs:232 | one more line that parses appends its encoding to the file, and one that does not leaves the file unchanged |
| Writer.PipeWrite | src/main.rs:222-236 | the output file is the encoding, in order, of the lines before the first `q` that parse, and the errors are one diagnostic per such line that does not parse |
| Reader.ReadCount | src/main.rs:258 | a read delivers at most `BYTE_LENGTH` bytes and no more than the file has left; it delivers 0 exactly at end of file or when the reader offers none; a reader that offers enough delivers the minimum of the width and what is left |
| Reader.Refill | src/main.rs:258 | a read keeps the buffer's length |
| Reader.Zeros | src/main.rs:254 | `interim` starts as `BYTE_LENGTH` zero bytes |
| Reader.ReadInto | src/main.rs:258 | a read of `n` bytes copies the next `n` file bytes over the front of `interim` and leaves the rest of it unchanged |
| Reader.LoadsWidth | src/main.rs:254-265 | every buffer decoded has `BYTE_LENGTH` bytes, so `from_bytes(&interim)` never indexes out of bounds |
| Reader.PrintedStep | src/main.rs:258-267 | a read that delivers bytes prints the decoded buffer next |
| Reader.ReadFile | src/main.rs:256-271 | the values printed are, in order, the decoded contents of `interim` after each read that delivered bytes, stale bytes included |
| Reader.DecodeAllChunks | src/main.rs:265 | decoding the whole chunks one by one gives the values of the file |
| Reader.LoadsFullChunk | src/main.rs:258-265 | with full reads, a read with a whole chunk left loads exactly that chunk |
| Reader.LoadsFullReadsPrefix | src/main.rs:256-267 | with full reads, the loop loads every whole chunk of the file, in order, before anything else |
| Reader.LoadsFullReadsCount | src/main.rs:256-267 | with full reads, the loop loads one buffer more than the file has whole chunks exactly when the file ends in a partial chunk |
| Reader.PrintedWholeChunks | src/main.rs:256-267 | with full reads on a file of whole chunks, the values printed are exactly the file's values in file order |
| Reader.PrintedFullReadsPrefix | src/main.rs:256-267 | with full reads, the values printed start with all of the file's values in file order |
| Reader.PrintedFullReadsCount | src/main.rs:256-267 | with full reads, one value more than the file holds is printed exactly when the file ends in a partial chunk |
| Reader.StaleBytesExample | src/main.rs:258-267 | the `u16` file 01 05 02 holds the single value 0x0501, but the loop prints 0x0501 and then 0x0502, decoded from the stray byte and the stale high byte |
| Reader.CheckedLoadsPrefix | src/main.rs:258-265 | whatever the reads deliver, the corrected loop loads only the file's first whole chunks, in order |
| Reader.CheckedLoadsFull | src/main.rs:258-265 | with full reads, the corrected loop loads every whole chunk and nothing else |
| Reader.CheckedLoadsWidth | src/main.rs:254-265 | every buffer the corrected loop decodes has `BYTE_LENGTH` bytes |
| Reader.CheckedStep | src/main.rs:258-267 | a read that fills the buffer takes exactly the next chunk, and that chunk's value is printed next |
| Reader.ReadChunk | src/main.rs:258-265 | after a read that fills `interim`, it holds the next chunk and decodes to that chunk's value |
| Reader.ReadFileChecked | src/main.rs:256-271 | the corrected loop prints the value of each whole chunk it reads and stops at the first read that does not fill the buffer |
| Reader.CheckedPrintsWholeChunks | src/main.rs:256-267 | whatever the reads deliver, the corrected loop prints a prefix of the file's values |
| Reader.CheckedFullReads | src/main.rs:256-267 | with full reads, the corrected loop prints exactly the file's values and drops a trailing partial chunk |
| Pipeline.IntParser | src/main.rs:231 | the integer parser yields only values of the type |
| Pipeline.WriteThenRead | src/main.rs:222-267 | a file written by `write`, read back with full reads by either reader, prints exactly the accepted values in input order |
| Pipeline.RenderedSession | src/main.rs:229 | no printed integer is the line `q` |
| Pipeline.RenderedAccepted | src/main.rs:231-233 | every printed integer parses back to itself, so no diagnostics arise |
| Pipeline.ReadThenWrite | src/main.rs:232-267 | for an integer type, a file of whole chunks and reads that fill the buffer, the lines `read` prints, fed to `write`, rebuild the file byte for byte with no diagnostics |
| Pipeline.QuitFirst | src/main.rs:229 | a session whose first line is `q` writes and reports nothing |
| Pipeline.QuitEndsSession | src/main.rs:229 | lines after the first `q` never matter |
| Pipeline.ExampleLines | src/main.rs:231 | `1`, `2` parse as `u8`; `5` parses and `abc` does not as `i32` |
| Pipeline.WriteU8Example | src/main.rs:222-232 | writing `1`, `2`, `q` as `u8` gives the bytes 01 02 |
| Pipeline.WriteInvalidExample | src/main.rs:222-233 | writing `abc`, `5`, `q`, `7` as `i32` writes 5 only and reports `abc` only |
| Pipeline.DiagnosticExample | src/main.rs:233 | the diagnostic for `abc` is `'abc' is not a valid input` |
| Dispatch.TagOf | src/main.rs:294-307 | a recognised type name is the name of the type it selects |
| Dispatch.TagOfName | src/main.rs:294-306 | each type is selected by its own name and by no other string |
| Dispatch.Executor | src/main.rs:278-284 | `write` and `read` start the operation on the named file; any other operation prints `Input write or read` |
| Dispatch.Run | src/main.rs:286-309 | an argument count other than three prints the help; an unknown type prints `Not a supported format` whatever the operation; a known type with `write` or `read` starts that operation on the named file; a known type with any other operation prints `Input write or read` |
| Dispatch.RunExamples | src/main.rs:286-309 | concrete command lines: an unknown type, an unknown operation, a missing argument and a valid `read` |

## Left out

- File creation and opening, and their error branches (src/main.rs:216, 243, 251, 273): the file is a byte sequence given to or returned by the model.
- Line read errors (src/main.rs:239): standard input is the sequence of lines it delivers.
- Read errors in `read_file` (src/main.rs:269): they are not modelled. As written, the loop neither breaks nor advances on an error, so the same read is retried.
- Writer.PipeWrite: the result of `r.write` is ignored by the source, so a partial or failed write to the `BufWriter`, and the final flush, are not modelled. Every write is taken to append all its bytes.
- Writer.PipeWrite: the lines are given already split. `lines()` itself, which strips `\n` and a `\r` before it, is not modelled.
- Float text: `parse` and `Display` for `f32`/`f64` are floating-point library code. The writer takes the parser as a parameter (`Writer.Parses` only requires its values to fit the type). The reader returns the decoded bit patterns rather than their printed text.
- Decimal.ParseInt and Decimal.Render model Rust's standard-library `FromStr` and `Display` for integers from their documented rules; they are not code of this program.
- The help text (src/main.rs:2-25) is the action `Dispatch.Help`; its wording is not modelled.
- Dispatch.Run: the arguments are taken after the program name. The `len() - 1` underflow on an empty argument list (src/main.rs:288) is not modelled.
- Printing to stdout and stderr: the printed values and diagnostics are returned as sequences, and the exact formatting is only that of `Decimal.Render` and `Writer.Diagnostic`.

## Findings

| source | as written | input that shows it | evidently intended | confidence | as-written member | corrected member |
|---|---|---|---|---|---|---|
| src/main.rs:258-267 | after a read that delivers fewer than `BYTE_LENGTH` bytes, `interim` is decoded whole, so its tail still holds bytes of the previous chunk and a value that is not in the file is printed | `read u16` of the three-byte file 01 05 02 prints 1281 (0x0501) and then 1282 (0x0502); the file holds only 0x0501 | a short final read ends the stream and prints nothing, so only values of whole chunks are printed | not executed | Reader.StaleBytesExample | Reader.ReadFileChecked |
